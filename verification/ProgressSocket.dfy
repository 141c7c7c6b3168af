/** frontend/src/lib/ws.ts: `connectProgress`, a socket that keeps itself open, one browser
    turn at a time. A handler called in a turn may itself dispose the connection. */
module ProgressSocket {
  import opened Optional

  // ---- backoffMs ----------------------------------------------------------------------

  function Pow2(n: nat): nat {
    if n == 0 then 1 else 2 * Pow2(n - 1)
  }

  function BaseMs(attempt: nat): nat {
    var b := 500 * Pow2(if attempt < 6 then attempt else 6);
    if b > 30000 then 30000 else b
  }

  /** `backoffMs`, with Math.round as floor(x + 1/2) and reals for numbers. */
  function BackoffMs(attempt: nat, random: real): int
    requires 0.0 <= random < 1.0
  {
    var base := BaseMs(attempt) as real;
    var jitter := base * 0.2 * (random * 2.0 - 1.0);
    var ms := (base + jitter + 0.5).Floor;
    if ms < 250 then 250 else ms
  }

  lemma PowersOfTwo()
    ensures Pow2(1) == 2 && Pow2(2) == 4 && Pow2(3) == 8 && Pow2(4) == 16 && Pow2(5) == 32 && Pow2(6) == 64
  {
    assert Pow2(3) == 8;
    assert Pow2(6) == 64;
  }

  lemma BaseRange(attempt: nat)
    ensures 500 <= BaseMs(attempt) <= 30000
    ensures attempt >= 1 ==> BaseMs(attempt) >= 1000
    ensures BaseMs(attempt) <= BaseMs(attempt + 1)
    ensures attempt >= 6 ==> BaseMs(attempt) == 30000
  {
    PowersOfTwo();
    if attempt < 6 {
      assert attempt == 0 || attempt == 1 || attempt == 2 || attempt == 3 || attempt == 4 || attempt == 5;
    }
  }

  /** Every wait is within a fifth of a base between 500 and 30000 that never shrinks, so within
      400 and 36000, and the floor of 250 is never what decides it. */
  lemma WaitRange(attempt: nat, random: real)
    requires 0.0 <= random < 1.0
    ensures 400 <= BackoffMs(attempt, random) <= 36000
    ensures attempt >= 1 ==> BackoffMs(attempt, random) >= 800
    ensures 4 * BaseMs(attempt) <= 5 * BackoffMs(attempt, random) <= 6 * BaseMs(attempt)
  {
    BaseRange(attempt);
    BaseIsRound(attempt);
    JitterRange(BaseMs(attempt), random);
  }

  /** The bases double from half a second to half a minute. */
  lemma BasesAre(attempt: nat)
    ensures BaseMs(attempt) ==
      if attempt == 0 then 500 else if attempt == 1 then 1000 else if attempt == 2 then 2000 else if attempt == 3 then 4000
      else if attempt == 4 then 8000 else if attempt == 5 then 16000 else 30000
  {
    PowersOfTwo();
    assert Pow2(0) == 1;
  }

  /** The jitter is spread evenly around the base: a fifth less at 0, none at a half, a fifth more
      towards 1. */
  lemma JitterSpreads(attempt: nat, random: real)
    requires 0.0 <= random < 1.0
    ensures 5 * BackoffMs(attempt, 0.0) == 4 * BaseMs(attempt) && BackoffMs(attempt, 0.5) == BaseMs(attempt)
    ensures BackoffMs(attempt, random) == (BaseMs(attempt) as real * (0.8 + 0.4 * random) + 0.5).Floor
  {
    WaitRange(attempt, random);
    BaseRange(attempt);
    BaseIsRound(attempt);
    var base := BaseMs(attempt) as real;
    var fifth := BaseMs(attempt) / 5;
    assert BaseMs(attempt) == 5 * fifth;
    assert base * 0.2 * (0.0 * 2.0 - 1.0) == 0.0 - base * 0.2 && base * 0.2 * (0.5 * 2.0 - 1.0) == 0.0;
    assert base + (0.0 - base * 0.2) == (4 * fifth) as real;
    Spread(base, random);
  }

  lemma Spread(base: real, random: real)
    ensures base + base * 0.2 * (random * 2.0 - 1.0) == base * (0.8 + 0.4 * random)
  {
    assert base * 0.2 * (random * 2.0 - 1.0) == base * (0.4 * random) - base * 0.2;
    assert base * (0.8 + 0.4 * random) == base * 0.8 + base * (0.4 * random);
  }

  lemma JitterRange(b: nat, random: real)
    requires 0.0 <= random < 1.0 && 500 <= b && b % 5 == 0
    ensures
      var x := b as real + b as real * 0.2 * (random * 2.0 - 1.0) + 0.5;
      4 * b <= 5 * x.Floor <= 6 * b
  {
    var base := b as real;
    var p := base * (0.4 * random);
    assert 0.0 <= 0.4 * random <= 0.4;
    NonNegative(base, 0.4 * random);
    NonNegative(base, 0.4 - 0.4 * random);
    assert base * (0.4 - 0.4 * random) == base * 0.4 - p;
    assert base * 0.2 * (random * 2.0 - 1.0) == p - base * 0.2;
    var x := b as real + b as real * 0.2 * (random * 2.0 - 1.0) + 0.5;
    assert x == base + (p - base * 0.2) + 0.5;
    assert b == 5 * (b / 5);
    FloorWithin(b / 5, base + (p - base * 0.2) + 0.5);
  }

  lemma NonNegative(a: real, b: real)
    requires a >= 0.0 && b >= 0.0
    ensures a * b >= 0.0
  {
  }

  lemma FloorWithin(fifth: nat, x: real)
    requires 4.0 * (fifth as real) + 0.5 <= x <= 6.0 * (fifth as real) + 0.5
    ensures 4 * fifth <= x.Floor <= 6 * fifth
  {
    assert (4 * fifth) as real == 4.0 * (fifth as real) && (6 * fifth) as real == 6.0 * (fifth as real);
    assert x < (6 * fifth + 1) as real;
  }

  lemma BaseIsRound(attempt: nat)
    ensures BaseMs(attempt) % 5 == 0
  {
  }

  // ---- the connection --------------------------------------------------------------------

  datatype Phase = Connecting | Open | Closed

  /** A socket the browser holds, and whether our handlers are on it. */
  datatype Socket = Socket(phase: Phase, attached: bool)

  datatype Call = ConnectionCall(attempt: nat) | LiveCall | ProgressCall

  datatype Change = Opened | Lost

  /** The four variables of the closure, and the browser around it: every socket ever made,
      the timers that will still fire, the calls made on the handlers, and what the attached
      sockets did. */
  datatype State = State(
    socket: Option<nat>, attempt: nat, timer: Option<nat>, disposed: bool,
    sockets: seq<Socket>, pending: set<nat>, timersMade: nat, calls: seq<Call>, changes: seq<Change>)

  /** Who throws in a turn, if it comes to be called in it: the handler on the connection, the
      socket factory (or asking for the protocols), the source of jitter, the setting of a timer. */
  datatype Thrower = Nobody | Handler | Factory | Jitter | SetTimeout

  /** `disposes`: the handler that this turn calls runs the disposer (and may throw after that). */
  datatype Event =
    | SocketOpens(k: nat, disposes: bool)
    | Frame(k: nat, parses: bool, disposes: bool)
    | SocketCloses(k: nat, disposes: bool, thrower: Thrower)
    | TimerFires(t: nat, disposes: bool, thrower: Thrower)
    | Dispose

  function CallHandler(s: State, call: Call, disposes: bool): State {
    var t := s.(calls := s.calls + [call]);
    if disposes then Disposed(t) else t
  }

  /** The returned disposer. Closing a detached socket calls nobody. */
  function Disposed(s: State): State {
    s.(disposed := true,
       pending := if s.timer.Some? then s.pending - {s.timer.value} else s.pending,
       sockets := if s.socket.Some? && s.socket.value < |s.sockets|
                  then s.sockets[s.socket.value := s.sockets[s.socket.value].(attached := false)] else s.sockets)
  }

  /** `open` gets to its last line. */
  predicate Makes(thrower: Thrower) {
    !thrower.Handler? && !thrower.Factory?
  }

  /** `onclose` gets to its last line, and through it. */
  predicate Schedules(thrower: Thrower) {
    !thrower.Jitter? && !thrower.Handler? && !thrower.SetTimeout?
  }

  /** `open`. */
  function Opening(s: State, disposes: bool, thrower: Thrower): State {
    if s.disposed then s
    else
      var t := CallHandler(s, ConnectionCall(s.attempt), disposes);
      if !Makes(thrower) then t else t.(sockets := t.sockets + [Socket(Connecting, true)], socket := Some(|t.sockets|))
  }

  const FRESH := State(None, 0, None, false, [], {}, 0, [], [])

  /** What `connectProgress` leaves if it returns; nobody has the disposer before that. */
  const CONNECTED := Opening(FRESH, false, Nobody)

  /** A turn the browser cannot take changes nothing: sockets open once, close once, and
      deliver frames while open. A throw ends its turn; after an open or a frame nothing is left
      to do in it anyway. */
  function Next(s: State, e: Event): State {
    match e
    case Dispose => Disposed(s)
    case TimerFires(t, disposes, thrower) =>
      if t !in s.pending then s else Opening(s.(pending := s.pending - {t}), disposes, thrower)
    case SocketOpens(k, disposes) =>
      if k >= |s.sockets| || s.sockets[k].phase != Connecting then s
      else
        var t := s.(sockets := s.sockets[k := s.sockets[k].(phase := Open)]);
        if !s.sockets[k].attached || s.disposed then t
        else CallHandler(t.(attempt := 0, changes := t.changes + [Opened]), LiveCall, disposes)
    case Frame(k, parses, disposes) =>
      if k >= |s.sockets| || s.sockets[k].phase != Open || !s.sockets[k].attached || s.disposed || !parses then s
      else CallHandler(s, ProgressCall, disposes)
    case SocketCloses(k, disposes, thrower) =>
      if k >= |s.sockets| || s.sockets[k].phase == Closed then s
      else
        var t := s.(sockets := s.sockets[k := s.sockets[k].(phase := Closed)]);
        if !s.sockets[k].attached || s.disposed then t
        else
          var lost := t.(socket := None, attempt := t.attempt + 1, changes := t.changes + [Lost]);
          var u := if thrower.Jitter? then lost else CallHandler(lost, ConnectionCall(lost.attempt), disposes);
          if !Schedules(thrower) then u
          else u.(timer := Some(u.timersMade), pending := u.pending + {u.timersMade}, timersMade := u.timersMade + 1)
  }

  function After(events: seq<Event>): State {
    if events == [] then CONNECTED else Next(After(events[..|events| - 1]), events[|events| - 1])
  }

  // ---- what always holds -----------------------------------------------------------------------

  /** Closes of our socket since it last opened. */
  function ClosesSinceOpen(changes: seq<Change>): nat {
    if changes == [] || changes[|changes| - 1] == Opened then 0
    else 1 + ClosesSinceOpen(changes[..|changes| - 1])
  }

  predicate Holding(s: State) {
    s.socket.Some? && s.socket.value < |s.sockets| && s.sockets[s.socket.value].attached && s.sockets[s.socket.value].phase != Closed
  }

  predicate Waiting(s: State) {
    s.timer.Some? && s.pending == {s.timer.value}
  }

  /** Nothing that could ever happen again but its disposal. */
  predicate Stranded(s: State) {
    s.socket.None? && s.pending == {}
  }

  ghost predicate Inv(s: State) {
    && (forall t :: t in s.pending ==> t < s.timersMade)
    && s.attempt == ClosesSinceOpen(s.changes)
    && (!s.disposed ==>
         && ((Holding(s) && s.pending == {}) || (s.socket.None? && Waiting(s)) || Stranded(s))
         && forall k :: 0 <= k < |s.sockets| && Some(k) != s.socket ==> s.sockets[k].phase == Closed)
  }

  lemma DisposedInv(s: State)
    requires Inv(s)
    ensures Inv(Disposed(s))
  {
  }

  lemma TimerInv(s: State, t: nat, disposes: bool, thrower: Thrower)
    requires Inv(s)
    ensures Inv(Next(s, TimerFires(t, disposes, thrower)))
  {
  }

  lemma OpensInv(s: State, k: nat, disposes: bool)
    requires Inv(s)
    ensures Inv(Next(s, SocketOpens(k, disposes)))
  {
    var t := Next(s, SocketOpens(k, disposes));
    assert ClosesSinceOpen(s.changes + [Opened]) == 0;
  }

  lemma ClosesInv(s: State, k: nat, disposes: bool, thrower: Thrower)
    requires Inv(s)
    ensures Inv(Next(s, SocketCloses(k, disposes, thrower)))
  {
    assert (s.changes + [Lost])[..|s.changes|] == s.changes;
    assert ClosesSinceOpen(s.changes + [Lost]) == 1 + ClosesSinceOpen(s.changes);
  }

  lemma {:induction false} StillInv(s: State, e: Event)
    requires Inv(s)
    ensures Inv(Next(s, e))
  {
    match e {
      case Dispose => DisposedInv(s);
      case TimerFires(t, disposes, thrower) => TimerInv(s, t, disposes, thrower);
      case SocketOpens(k, disposes) => OpensInv(s, k, disposes);
      case Frame(k, parses, disposes) => DisposedInv(s.(calls := s.calls + [ProgressCall]));
      case SocketCloses(k, disposes, thrower) => ClosesInv(s, k, disposes, thrower);
    }
  }

  lemma {:induction false} AlwaysInv(events: seq<Event>)
    ensures Inv(After(events))
    decreases |events|
  {
    if events != [] {
      AlwaysInv(events[..|events| - 1]);
      StillInv(After(events[..|events| - 1]), events[|events| - 1]);
    }
  }

  /** A turn of a live connection that a throw cuts short: a retry before it has a socket, by
      the handler or the factory; or our socket's close before the retry is scheduled, by the
      handler, the jitter or the setting of the timer. */
  predicate CutShort(s: State, e: Event) {
    match e
    case TimerFires(t, _, thrower) => !s.disposed && t in s.pending && !Makes(thrower)
    case SocketCloses(k, _, thrower) =>
      && !s.disposed && k < |s.sockets| && s.sockets[k].attached && s.sockets[k].phase != Closed
      && !Schedules(thrower)
    case _ => false
  }

  predicate ThrowsAt(events: seq<Event>, k: nat)
    requires k < |events|
  {
    CutShort(After(events[..k]), events[k])
  }

  ghost predicate Threw(events: seq<Event>) {
    exists k :: 0 <= k < |events| && ThrowsAt(events, k)
  }

  lemma {:induction false} ThrewLast(events: seq<Event>)
    requires events != []
    ensures Threw(events) <==> Threw(events[..|events| - 1]) || ThrowsAt(events, |events| - 1)
  {
    var init := events[..|events| - 1];
    forall k | 0 <= k < |init| ensures ThrowsAt(events, k) <==> ThrowsAt(init, k) {
      assert init[..k] == events[..k];
    }
  }

  /** A live connection is stranded exactly when a throw cut a retry or a close short. */
  lemma {:induction false} StrandedExactly(events: seq<Event>)
    requires !After(events).disposed
    ensures Stranded(After(events)) <==> Threw(events)
    decreases |events|
  {
    if events != [] {
      var init, e := events[..|events| - 1], events[|events| - 1];
      StrandedExactly(init);
      AlwaysInv(init);
      ThrewLast(events);
      hide Threw;
      StrandedStep(After(init), e);
    }
  }

  lemma StrandedStep(s: State, e: Event)
    requires Inv(s) && !s.disposed && !Next(s, e).disposed
    ensures Stranded(Next(s, e)) <==> Stranded(s) || CutShort(s, e)
  {
  }

  /** Until it is disposed, and as long as no throw cut a turn short, a connection has a live
      attached socket or one pending retry, never both and never neither; after such a turn it has
      neither and never will. Every other socket ever made is closed; and the attempt counter is
      the number of closes since the last open. */
  lemma OneSocketOrOneTimer(events: seq<Event>)
    requires !After(events).disposed
    ensures
      var s := After(events);
      && (if Threw(events) then !Holding(s) && s.pending == {} else Holding(s) <==> !Waiting(s))
      && (Holding(s) ==> s.pending == {}) && |s.pending| <= 1
      && (forall k :: 0 <= k < |s.sockets| && Some(k) != s.socket ==> s.sockets[k].phase == Closed)
      && s.attempt == ClosesSinceOpen(s.changes)
  {
    AlwaysInv(events);
    StrandedExactly(events);
  }

  /** What each turn of a live connection tells the handlers: an opening socket that it is live, a
      frame that parses its progress, a close that it will try again, a retry that it is trying. No
      other turn calls anybody; a stale socket or timer never does. */
  function Tells(s: State, e: Event): seq<Call> {
    match e
    case SocketOpens(k, _) => if s.socket == Some(k) && k < |s.sockets| && s.sockets[k].phase == Connecting then [LiveCall] else []
    case Frame(k, parses, _) => if s.socket == Some(k) && k < |s.sockets| && s.sockets[k].phase == Open && parses then [ProgressCall] else []
    case SocketCloses(k, _, thrower) => if s.socket == Some(k) && !thrower.Jitter? then [ConnectionCall(s.attempt + 1)] else []
    case TimerFires(t, _, _) => if t in s.pending then [ConnectionCall(s.attempt)] else []
    case Dispose => []
  }

  /** Over all runs: the calls on the handlers, turn by turn. */
  lemma {:induction false} HandlersAreTold(events: seq<Event>, e: Event)
    requires !After(events).disposed
    ensures Next(After(events), e).calls == After(events).calls + Tells(After(events), e)
  {
    AlwaysInv(events);
  }

  /** What each turn of a live connection leaves. An open resets the counter; a close counts one and
      plans a retry; a retry has a new socket, connecting; the disposer leaves no timer and no socket
      of ours attached. */
  lemma {:induction false} TurnsLeave(events: seq<Event>, e: Event)
    requires !After(events).disposed
    ensures
      var s, t := After(events), Next(After(events), e);
      && (e.SocketOpens? && s.socket == Some(e.k) && e.k < |s.sockets| && s.sockets[e.k].phase == Connecting ==>
            t.attempt == 0 && t.sockets[e.k].phase == Open && t.timersMade == s.timersMade)
      && (e.SocketCloses? && s.socket == Some(e.k) && e.k < |s.sockets| && Schedules(e.thrower) ==>
            t.attempt == s.attempt + 1 && t.socket.None? && t.sockets[e.k].phase == Closed && s.timersMade in t.pending && t.timer == Some(s.timersMade))
      && (e.TimerFires? && e.t in s.pending && Makes(e.thrower) ==>
            t.attempt == s.attempt && t.socket == Some(|s.sockets|) && |t.sockets| == |s.sockets| + 1 && t.sockets[|s.sockets|] == Socket(Connecting, true))
      && (e.Dispose? ==> t.disposed && t.pending == {} && forall k :: 0 <= k < |t.sockets| && t.sockets[k].phase != Closed ==> !t.sockets[k].attached)
      && (e.Frame? ==> t.attempt == s.attempt && t.socket == s.socket && t.timersMade == s.timersMade)
  {
    AlwaysInv(events);
  }

  /** After the turn in which it was disposed: no handler call, no new socket, no new timer,
      for any further turns, stale ones included. */
  lemma {:induction false} SilentOnceDisposed(s: State, later: seq<Event>)
    requires s.disposed
    ensures
      var t := Run(s, later);
      t.disposed && t.calls == s.calls && |t.sockets| == |s.sockets| && t.timersMade == s.timersMade
    decreases |later|
  {
    if later != [] {
      SilentOnceDisposed(Next(s, later[0]), later[1..]);
    }
  }

  function Run(s: State, events: seq<Event>): State
    decreases |events|
  {
    if events == [] then s else Run(Next(s, events[0]), events[1..])
  }

  /** In the disposing turn itself a socket survives, attached and never to be closed, exactly
      when the disposer is called by the handler that `open` calls in a retry; and a timer
      survives exactly when it is called by the handler that `onclose` calls; if nobody throws. */
  lemma DisposingTurn(events: seq<Event>, e: Event)
    requires !After(events).disposed && Next(After(events), e).disposed
    ensures
      var s, t := After(events), Next(After(events), e);
      && ((exists k :: 0 <= k < |t.sockets| && t.sockets[k].attached && t.sockets[k].phase != Closed) <==> e.TimerFires? && Makes(e.thrower))
      && (|t.sockets| > |s.sockets| <==> e.TimerFires? && Makes(e.thrower))
      && (t.pending != {} <==> e.SocketCloses? && Schedules(e.thrower))
  {
    AlwaysInv(events);
    var s, t := After(events), Next(After(events), e);
    if e.TimerFires? && Makes(e.thrower) {
      assert t.sockets[|s.sockets|].attached;
    }
  }

  /** Such a turn exists. */
  lemma SocketAfterDispose()
    ensures
      var s := After([SocketCloses(0, false, Nobody)]);
      var t := Next(s, TimerFires(0, true, Nobody));
      !s.disposed && t.disposed && |t.sockets| > |s.sockets| && t.sockets[1].attached
  {
    assert [SocketCloses(0, false, Nobody)][..0] == [];
  }

  // ---- the closure as an object ---------------------------------------------------------------

  class Connection {
    var socket: Option<nat>
    var attempt: nat
    var timer: Option<nat>
    var disposed: bool
    var sockets: seq<Socket>
    var pending: set<nat>
    var timersMade: nat
    var calls: seq<Call>
    ghost var changes: seq<Change>

    ghost function Value(): State
      reads this
    {
      State(socket, attempt, timer, disposed, sockets, pending, timersMade, calls, changes)
    }

    constructor ()
      ensures Value() == CONNECTED
    {
      socket, attempt, timer, disposed := None, 0, None, false;
      sockets, pending, timersMade, calls, changes := [], {}, 0, [], [];
      new;
      Open(false, Nobody);
    }

    method OnConnection(call: Call, disposes: bool)
      modifies this
      ensures Value() == CallHandler(old(Value()), call, disposes)
    {
      calls := calls + [call];
      if disposes {
        DisposeNow();
      }
    }

    method Open(disposes: bool, thrower: Thrower)
      modifies this
      ensures Value() == Opening(old(Value()), disposes, thrower)
    {
      if disposed {
        return;
      }
      OnConnection(ConnectionCall(attempt), disposes);
      if Makes(thrower) {
        sockets := sockets + [Socket(Connecting, true)];
        socket := Some(|sockets| - 1);
      }
    }

    method DisposeNow()
      modifies this
      ensures Value() == Disposed(old(Value()))
    {
      disposed := true;
      if timer.Some? {
        pending := pending - {timer.value};
      }
      if socket.Some? && socket.value < |sockets| {
        sockets := sockets[socket.value := sockets[socket.value].(attached := false)];
      }
    }

    method OnOpen(k: nat, disposes: bool)
      requires k < |sockets| && sockets[k].phase == Connecting
      modifies this
      ensures Value() == Next(old(Value()), SocketOpens(k, disposes))
    {
      var attached := sockets[k].attached;
      sockets := sockets[k := sockets[k].(phase := Phase.Open)];
      if !attached || disposed {
        return;
      }
      attempt := 0;
      changes := changes + [Opened];
      OnConnection(LiveCall, disposes);
    }

    method OnMessage(k: nat, parses: bool, disposes: bool)
      requires k < |sockets| && sockets[k].phase == Phase.Open
      modifies this
      ensures Value() == Next(old(Value()), Frame(k, parses, disposes))
    {
      if sockets[k].attached && !disposed && parses {
        OnConnection(ProgressCall, disposes);
      }
    }

    method OnClose(k: nat, disposes: bool, thrower: Thrower, random: real) returns (wait: int)
      requires k < |sockets| && sockets[k].phase != Closed && 0.0 <= random < 1.0
      modifies this
      ensures Value() == Next(old(Value()), SocketCloses(k, disposes, thrower))
      ensures wait == 0 || 800 <= wait <= 36000
      ensures timersMade > old(timersMade) ==> wait >= 800
    {
      hide BackoffMs, CallHandler;
      wait := 0;
      var attached := sockets[k].attached;
      sockets := sockets[k := sockets[k].(phase := Closed)];
      if !attached || disposed {
        return;
      }
      socket := None;
      attempt := attempt + 1;
      changes := changes + [Lost];
      if thrower == Jitter {
        return;
      }
      wait := BackoffMs(attempt, random);
      WaitRange(attempt, random);
      OnConnection(ConnectionCall(attempt), disposes);
      if !Schedules(thrower) {
        return;
      }
      timer, pending, timersMade := Some(timersMade), pending + {timersMade}, timersMade + 1;
    }

    method OnTimer(t: nat, disposes: bool, thrower: Thrower)
      requires t in pending
      modifies this
      ensures Value() == Next(old(Value()), TimerFires(t, disposes, thrower))
    {
      pending := pending - {t};
      Open(disposes, thrower);
    }
  }
}
