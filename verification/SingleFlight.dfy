/** One shared promise for all who wait: `renew` and `request` of frontend/src/lib/api.ts,
    `initAuth` of frontend/src/lib/auth.ts. One event is one turn of the browser. */
module SingleFlight {
  import opened Optional

  // ---- the shared promise ---------------------------------------------------------------

  /** One call of the shared function: its result once it settles, and whether the callback
      chained to it has run since. Those who wait resume after that callback. */
  datatype Call<R> = Call(result: Option<R>, released: bool)

  /** `current` is the module variable; `calls` every call ever made. */
  datatype Flight<R> = Flight(current: Option<nat>, calls: seq<Call<R>>) {

    predicate Valid() {
      && (forall k :: 0 <= k < |calls| && calls[k].released ==> calls[k].result.Some?)
      && (forall k :: 0 <= k < |calls| - 1 ==> calls[k].released)
      && (current.Some? ==> current.value == |calls| - 1)
      && (calls != [] && current.None? ==> calls[|calls| - 1].released)
    }

    /** `variable ??= call()`. */
    function Join(): Flight<R> {
      if current.Some? then this else Flight(Some(|calls|), calls + [Call(None, false)])
    }

    function Settle(k: nat, r: R): Flight<R> {
      if k < |calls| && calls[k].result.None? then this.(calls := calls[k := Call(Some(r), false)]) else this
    }

    /** The callback: it empties the variable, unless it is one that keeps this result. */
    function Release(k: nat, keep: bool): Flight<R> {
      if k < |calls| && calls[k].result.Some? && !calls[k].released
      then Flight(if keep then current else None, calls[k := calls[k].(released := true)])
      else this
    }

    predicate Outstanding(k: nat) {
      k < |calls| && calls[k].result.None?
    }
  }

  lemma JoinValid<R>(f: Flight<R>)
    requires f.Valid()
    ensures f.Join().Valid() && f.Join().current.Some?
    ensures f.current.Some? ==> f.Join() == f
  {
  }

  lemma SettleValid<R>(f: Flight<R>, k: nat, r: R)
    requires f.Valid()
    ensures f.Settle(k, r).Valid()
  {
  }

  lemma ReleaseValid<R>(f: Flight<R>, k: nat, keep: bool)
    requires f.Valid()
    ensures f.Release(k, keep).Valid()
  {
  }

  /** Two calls are never outstanding at once. */
  lemma OneOutstanding<R>(f: Flight<R>, j: nat, k: nat)
    requires f.Valid() && f.Outstanding(j) && f.Outstanding(k)
    ensures j == k
  {
    assert forall m :: 0 <= m < |f.calls| - 1 ==> f.calls[m].released && f.calls[m].result.Some?;
  }

  // ---- requests ------------------------------------------------------------------------------

  datatype Response = Fine | Unauthorized | OtherError

  /** What a renewal brings: a token, none, or a rejection. The empty token counts as none. */
  datatype Renewal = Token(t: string) | NoToken | Refused

  predicate Usable(r: Renewal) {
    r.Token? && r.t != ""
  }

  datatype Outcome = Answered | Rejected(r: Response) | RenewalFailed

  datatype Pc = Sending | Waiting(k: nat) | Resending | Done(outcome: Outcome)

  /** A call of `request` or `upload`, with a record of what it met. */
  datatype Request = Request(pc: Pc, first: Option<Response>, joined: Option<nat>, second: Option<Response>)

  datatype State = State(hasRefresher: bool, flight: Flight<Renewal>, requests: seq<Request>)

  datatype Event =
    | SetRefresher(on: bool)
    | Begin
    | Reply(i: nat, r: Response)
    | RenewalSettles(k: nat, renewal: Renewal)
    | RenewalReleased(k: nat)
    | Resume(i: nat)

  function Sent(r: Response): Outcome {
    if r == Fine then Answered else Rejected(r)
  }

  function Put(s: State, i: nat, q: Request): State
    requires i < |s.requests|
  {
    s.(requests := s.requests[i := q])
  }

  /** The catch block up to its first await. */
  function Renewing(s: State, i: nat): State
    requires i < |s.requests|
  {
    var q := s.requests[i].(first := Some(Unauthorized));
    if !s.hasRefresher then Put(s, i, q.(pc := Done(Rejected(Unauthorized))))
    else
      var f := s.flight.Join();
      Put(s.(flight := f), i, q.(pc := if f.current.Some? then Waiting(f.current.value) else Sending, joined := f.current))
  }

  function Next(s: State, e: Event): State {
    match e
    case SetRefresher(on) => s.(hasRefresher := on)
    case Begin => s.(requests := s.requests + [Request(Sending, None, None, None)])
    case Reply(i, r) =>
      if i >= |s.requests| then s
      else
        var q := s.requests[i];
        if q.pc.Sending? then
          if r == Unauthorized then Renewing(s, i) else Put(s, i, q.(first := Some(r), pc := Done(Sent(r))))
        else if q.pc.Resending? then Put(s, i, q.(second := Some(r), pc := Done(Sent(r))))
        else s
    case RenewalSettles(k, r) => s.(flight := s.flight.Settle(k, r))
    case RenewalReleased(k) => s.(flight := s.flight.Release(k, false))
    case Resume(i) =>
      if i >= |s.requests| || !s.requests[i].pc.Waiting? then s
      else
        var q := s.requests[i];
        if q.pc.k >= |s.flight.calls| || !s.flight.calls[q.pc.k].released || s.flight.calls[q.pc.k].result.None? then s
        else
          match s.flight.calls[q.pc.k].result.value
          case Refused => Put(s, i, q.(pc := Done(RenewalFailed)))
          case r => Put(s, i, q.(pc := if Usable(r) then Resending else Done(Rejected(Unauthorized))))
  }

  function After(on: bool, events: seq<Event>): State {
    if events == [] then State(on, Flight(None, []), [])
    else Next(After(on, events[..|events| - 1]), events[|events| - 1])
  }

  function Sends(q: Request): nat {
    if q.pc.Resending? || q.second.Some? then 2 else 1
  }

  /** A renewal is worth a second try only with a token in it that is not empty. */
  ghost predicate BringsToken(r: Renewal) {
    exists t :: r == Token(t) && t != ""
  }

  /** A reply is the answer if it is fine, and otherwise the error the caller sees. */
  ghost predicate EndsWith(outcome: Outcome, r: Response) {
    if r.Fine? then outcome == Answered else outcome == Rejected(r)
  }

  /** How a request ends, told from the replies it got and the renewal it waited for. */
  ghost predicate EndsRight(q: Request, f: Flight<Renewal>) {
    match q.pc
    case Sending => q.first.None? && q.joined.None? && q.second.None?
    case Waiting(k) => q.first == Some(Unauthorized) && q.joined == Some(k) && k < |f.calls| && q.second.None?
    case Resending => q.first == Some(Unauthorized) && JoinedWith(q, f) && BringsToken(f.calls[q.joined.value].result.value) && q.second.None?
    case Done(outcome) =>
      && q.first.Some?
      && (q.first.value != Unauthorized ==> q.joined.None? && q.second.None? && EndsWith(outcome, q.first.value))
      && (q.first.value == Unauthorized && q.joined.None? ==> q.second.None? && outcome == Rejected(Unauthorized))
      && (q.joined.Some? ==>
           && q.first.value == Unauthorized && JoinedWith(q, f)
           && match f.calls[q.joined.value].result.value
              case Refused => outcome == RenewalFailed && q.second.None?
              case r => if BringsToken(r) then q.second.Some? && EndsWith(outcome, q.second.value)
                        else outcome == Rejected(Unauthorized) && q.second.None?)
  }

  predicate JoinedWith(q: Request, f: Flight<Renewal>) {
    q.joined.Some? && q.joined.value < |f.calls| && f.calls[q.joined.value].result.Some? && f.calls[q.joined.value].released
  }

  ghost predicate Inv(s: State) {
    && s.flight.Valid()
    && (forall i :: 0 <= i < |s.requests| ==> EndsRight(s.requests[i], s.flight))
  }

  /** What a later flight keeps of an earlier one. */
  ghost predicate Keeps<R>(f: Flight<R>, g: Flight<R>) {
    && |f.calls| <= |g.calls|
    && forall k :: 0 <= k < |f.calls| && f.calls[k].released ==> g.calls[k] == f.calls[k]
  }

  lemma EndsRightKept(q: Request, f: Flight<Renewal>, g: Flight<Renewal>)
    requires EndsRight(q, f) && Keeps(f, g)
    ensures EndsRight(q, g)
  {
  }

  lemma {:induction false} NextInv(s: State, e: Event)
    requires Inv(s)
    ensures Inv(Next(s, e)) && Keeps(s.flight, Next(s, e).flight)
  {
    hide EndsRight;
    var t := Next(s, e);
    FlightMoves(s, e);
    forall i | 0 <= i < |t.requests| ensures EndsRight(t.requests[i], t.flight) {
      if i < |s.requests| && t.requests[i] == s.requests[i] {
        assert EndsRight(s.requests[i], s.flight);
        EndsRightKept(s.requests[i], s.flight, t.flight);
      } else {
        MovedRequest(s, e, i);
      }
    }
  }

  lemma FlightMoves(s: State, e: Event)
    requires Inv(s)
    ensures Next(s, e).flight.Valid() && Keeps(s.flight, Next(s, e).flight)
  {
    JoinValid(s.flight);
    match e {
      case RenewalSettles(k, r) => SettleValid(s.flight, k, r);
      case RenewalReleased(k) => ReleaseValid(s.flight, k, false);
      case _ =>
    }
  }

  lemma MovedRequest(s: State, e: Event, i: nat)
    requires Inv(s) && i < |Next(s, e).requests|
    requires i >= |s.requests| || Next(s, e).requests[i] != s.requests[i]
    ensures EndsRight(Next(s, e).requests[i], Next(s, e).flight)
  {
    if i < |s.requests| {
      assert EndsRight(s.requests[i], s.flight);
      JoinValid(s.flight);
    }
  }

  lemma {:induction false} AlwaysInv(on: bool, events: seq<Event>)
    ensures Inv(After(on, events))
    decreases |events|
  {
    if events != [] {
      AlwaysInv(on, events[..|events| - 1]);
      NextInv(After(on, events[..|events| - 1]), events[|events| - 1]);
    }
  }

  /** For any number of requests in any interleaving: at most one renewal is outstanding; each
      request sends at most twice and joins at most one renewal; and how it ends is decided by
      its replies and that renewal's one result, the same for everybody who waited for it. */
  lemma OneRenewalForAll(on: bool, events: seq<Event>)
    ensures
      var s := After(on, events);
      && (forall j, k :: s.flight.Outstanding(j) && s.flight.Outstanding(k) ==> j == k)
      && forall i :: 0 <= i < |s.requests| ==> EndsRight(s.requests[i], s.flight) && Sends(s.requests[i]) <= 2
  {
    AlwaysInv(on, events);
    var s := After(on, events);
    forall j, k | s.flight.Outstanding(j) && s.flight.Outstanding(k) ensures j == k {
      OneOutstanding(s.flight, j, k);
    }
  }

  /** What moves a request on: the reply it is waiting for, and, once it has joined a renewal, that
      renewal's end. A 401 joins the renewal under way or, without one, starts it. */
  lemma {:induction false} RequestMoves(on: bool, events: seq<Event>, e: Event, i: nat)
    requires i < |After(on, events).requests|
    ensures
      var s, t := After(on, events), Next(After(on, events), e);
      var q, p := s.requests[i], t.requests[i];
      && |t.requests| >= |s.requests|
      && (q.pc.Sending? && e == Reply(i, Unauthorized) && s.hasRefresher ==>
            && p.first == Some(Unauthorized) && |t.flight.calls| > 0 && p.pc == Waiting(|t.flight.calls| - 1)
            && |t.flight.calls| == |s.flight.calls| + if s.flight.current.None? then 1 else 0)
      && (q.pc.Sending? && e.Reply? && e.i == i && (e.r != Unauthorized || !s.hasRefresher) ==>
            p.first == Some(e.r) && p.pc.Done? && t.flight == s.flight)
      && (q.pc.Resending? && e.Reply? && e.i == i ==> p.second == Some(e.r) && p.pc.Done? && t.flight == s.flight)
      && (q.pc.Waiting? && e == Resume(i) ==>
            q.pc.k < |s.flight.calls| && if s.flight.calls[q.pc.k].released then p.pc.Resending? || p.pc.Done? else p == q)
      && (e != Resume(i) && !(e.Reply? && e.i == i) ==> p == q)
      && (q.pc.Done? ==> p == q)
  {
    AlwaysInv(on, events);
    var s := After(on, events);
    assert EndsRight(s.requests[i], s.flight);
    JoinValid(s.flight);
  }

  /** What moves a renewal on: the result it is waiting for, which stands once it is there, and then
      the callback that empties the variable. */
  lemma {:induction false} RenewalMoves(on: bool, events: seq<Event>, k: nat, r: Renewal)
    requires k < |After(on, events).flight.calls|
    ensures
      var f, g := After(on, events).flight, Next(After(on, events), RenewalSettles(k, r)).flight;
      g.current == f.current && |g.calls| == |f.calls| && g.calls[k].result == (if f.calls[k].result.None? then Some(r) else f.calls[k].result)
    ensures
      var f, g := After(on, events).flight, Next(After(on, events), RenewalReleased(k)).flight;
      f.calls[k].result.Some? && !f.calls[k].released ==> g.current.None? && g.calls[k] == f.calls[k].(released := true)
    ensures
      var s, t := After(on, events), Next(After(on, events), Begin);
      t == s.(requests := s.requests + [Request(Sending, None, None, None)])
  {
  }

  /** Two requests that waited for the same renewal went the same way. */
  lemma SameResultForAll(on: bool, events: seq<Event>, i: nat, j: nat)
    requires i < |After(on, events).requests| && j < |After(on, events).requests|
    requires
      var s := After(on, events);
      && s.requests[i].joined.Some? && s.requests[i].joined == s.requests[j].joined
      && !s.requests[i].pc.Waiting? && !s.requests[j].pc.Waiting?
    ensures
      var s := After(on, events);
      && Sends(s.requests[i]) == Sends(s.requests[j])
      && (s.requests[i].pc == Done(RenewalFailed) <==> s.requests[j].pc == Done(RenewalFailed))
  {
    AlwaysInv(on, events);
    var s := After(on, events);
    assert EndsRight(s.requests[i], s.flight) && EndsRight(s.requests[j], s.flight);
  }

  /** Refresher calls never outnumber requests. */
  lemma {:induction false} RenewalsBounded(on: bool, events: seq<Event>)
    ensures |After(on, events).flight.calls| <= Joiners(After(on, events).requests)
    decreases |events|
  {
    if events != [] {
      var s, e := After(on, events[..|events| - 1]), events[|events| - 1];
      RenewalsBounded(on, events[..|events| - 1]);
      AlwaysInv(on, events[..|events| - 1]);
      JoinersMove(s, e);
    }
  }

  function Joiners(qs: seq<Request>): nat {
    if qs == [] then 0 else Joiners(qs[..|qs| - 1]) + if qs[|qs| - 1].joined.Some? then 1 else 0
  }

  lemma {:induction false} JoinersPut(qs: seq<Request>, i: nat, q: Request)
    requires i < |qs|
    ensures Joiners(qs[i := q]) == Joiners(qs) - (if qs[i].joined.Some? then 1 else 0) + (if q.joined.Some? then 1 else 0)
    decreases |qs|
  {
    var n := |qs| - 1;
    if i == n {
      assert qs[i := q][..n] == qs[..n];
    } else {
      assert qs[i := q][..n] == qs[..n][i := q];
      JoinersPut(qs[..n], i, q);
    }
  }

  lemma JoinersMove(s: State, e: Event)
    requires Inv(s)
    ensures Joiners(Next(s, e).requests) - Joiners(s.requests) >= |Next(s, e).flight.calls| - |s.flight.calls|
  {
    var t := Next(s, e);
    match e {
      case Begin =>
        assert t.requests[..|t.requests| - 1] == s.requests;
      case Reply(i, _) =>
        if i < |s.requests| {
          assert EndsRight(s.requests[i], s.flight);
          JoinersPut(s.requests, i, t.requests[i]);
        }
      case Resume(i) =>
        if i < |s.requests| {
          JoinersPut(s.requests, i, t.requests[i]);
        }
      case _ =>
    }
  }

  /** The module variables behind `renew`. */
  class Renewer {
    var hasRefresher: bool
    var inFlight: Option<nat>
    var calls: seq<Call<Renewal>>

    constructor ()
      ensures !hasRefresher && Value() == Flight(None, [])
    {
      hasRefresher, inFlight, calls := false, None, [];
    }

    ghost function Value(): Flight<Renewal>
      reads this
    {
      Flight(inFlight, calls)
    }

    /** `renew`: the promise to wait for, or none when nobody can renew. */
    method Renew() returns (promise: Option<nat>)
      requires Value().Valid()
      modifies this`inFlight, this`calls
      ensures Value().Valid()
      ensures Value() == if hasRefresher then old(Value()).Join() else old(Value())
      ensures promise == if hasRefresher then inFlight else None
    {
      JoinValid(Value());
      if !hasRefresher {
        return None;
      }
      if inFlight.None? {
        inFlight, calls := Some(|calls|), calls + [Call(None, false)];
      }
      promise := inFlight;
    }

    /** The callback of `finally`. */
    method Finally(k: nat)
      requires Value().Valid() && k < |calls| && calls[k].result.Some? && !calls[k].released
      modifies this`inFlight, this`calls
      ensures Value().Valid() && Value() == old(Value()).Release(k, false)
    {
      ReleaseValid(Value(), k, false);
      inFlight, calls := None, calls[k := calls[k].(released := true)];
    }
  }

  // ---- initAuth ------------------------------------------------------------------------------

  /** What a start brings: it built a manager or it failed. */
  datatype Started = Built | StartFailed

  /** `waits[i]` is the start caller i was given. */
  datatype Auth = Auth(flight: Flight<Started>, waits: seq<nat>)

  datatype AuthEvent = InitAuth | StartSettles(k: nat, r: Started) | CatchRuns(k: nat)

  /** Only a failure runs the catch callback; a manager stays for good. */
  function AuthNext(a: Auth, e: AuthEvent): Auth {
    match e
    case InitAuth =>
      var f := a.flight.Join();
      Auth(f, a.waits + (if f.current.Some? then [f.current.value] else []))
    case StartSettles(k, r) => a.(flight := a.flight.Settle(k, r))
    case CatchRuns(k) =>
      if k < |a.flight.calls| && a.flight.calls[k].result == Some(StartFailed)
      then a.(flight := a.flight.Release(k, false)) else a
  }

  function AuthAfter(events: seq<AuthEvent>): Auth {
    if events == [] then Auth(Flight(None, []), [])
    else AuthNext(AuthAfter(events[..|events| - 1]), events[|events| - 1])
  }

  ghost predicate AuthInv(a: Auth) {
    && a.flight.Valid()
    && (forall k :: 0 <= k < |a.flight.calls| && a.flight.calls[k].released ==> a.flight.calls[k].result == Some(StartFailed))
    && (forall i :: 0 <= i < |a.waits| ==> a.waits[i] < |a.flight.calls|)
  }

  lemma {:induction false} AuthAlwaysInv(events: seq<AuthEvent>)
    ensures AuthInv(AuthAfter(events))
    decreases |events|
  {
    if events != [] {
      AuthAlwaysInv(events[..|events| - 1]);
      var a := AuthAfter(events[..|events| - 1]);
      JoinValid(a.flight);
    }
  }

  /** Two starts never run at once; all but the last have failed; and a caller who comes when
      the last has failed and been cleared starts another, while anybody else shares the last. */
  lemma StartsOneAtATime(events: seq<AuthEvent>)
    ensures
      var a := AuthAfter(events);
      var calls := a.flight.calls;
      && (forall j, k :: a.flight.Outstanding(j) && a.flight.Outstanding(k) ==> j == k)
      && (forall k :: 0 <= k < |calls| - 1 ==> calls[k].result == Some(StartFailed))
      && var b := AuthNext(a, InitAuth);
         && (|b.flight.calls| > |calls| <==> calls == [] || (calls[|calls| - 1].result == Some(StartFailed) && calls[|calls| - 1].released))
         && b.waits == a.waits + [|b.flight.calls| - 1]
  {
    AuthAlwaysInv(events);
    var a := AuthAfter(events);
    forall j, k | a.flight.Outstanding(j) && a.flight.Outstanding(k) ensures j == k {
      OneOutstanding(a.flight, j, k);
    }
    AuthCurrent(events);
  }

  /** A start's result stands once it is there; the callback clears a failure only. */
  lemma {:induction false} StartMoves(events: seq<AuthEvent>, k: nat, r: Started)
    requires k < |AuthAfter(events).flight.calls|
    ensures
      var f, g := AuthAfter(events).flight, AuthNext(AuthAfter(events), StartSettles(k, r)).flight;
      g.current == f.current && |g.calls| == |f.calls| && g.calls[k].result == (if f.calls[k].result.None? then Some(r) else f.calls[k].result)
    ensures
      var f, g := AuthAfter(events).flight, AuthNext(AuthAfter(events), CatchRuns(k)).flight;
      if f.calls[k].result == Some(StartFailed) && !f.calls[k].released
      then g.current.None? && g.calls[k] == f.calls[k].(released := true) else g == f
  {
  }

  /** The variable is empty exactly before the first start and after a cleared failure. */
  lemma {:induction false} AuthCurrent(events: seq<AuthEvent>)
    ensures CurrentIsLast(AuthAfter(events).flight)
    decreases |events|
  {
    if events != [] {
      AuthCurrent(events[..|events| - 1]);
      AuthAlwaysInv(events[..|events| - 1]);
      CurrentStep(AuthAfter(events[..|events| - 1]), events[|events| - 1]);
      hide AuthNext, AuthInv;
    }
  }

  predicate CurrentIsLast(f: Flight<Started>) {
    f.current.None? <==> f.calls == [] || f.calls[|f.calls| - 1].released
  }

  lemma CurrentStep(a: Auth, e: AuthEvent)
    requires AuthInv(a) && CurrentIsLast(a.flight)
    ensures CurrentIsLast(AuthNext(a, e).flight)
  {
  }

  /** The manager is there: nothing changes the flight any more. */
  lemma BuiltStep(a: Auth, e: AuthEvent)
    requires AuthInv(a) && CurrentIsLast(a.flight)
    requires var calls := a.flight.calls; calls != [] && calls[|calls| - 1].result == Some(Built)
    ensures AuthNext(a, e).flight == a.flight
    ensures AuthNext(a, e).waits == a.waits + if e.InitAuth? then [|a.flight.calls| - 1] else []
  {
    assert !a.flight.calls[|a.flight.calls| - 1].released;
  }

  /** Once a manager was built, whatever follows: no start is made any more, and every later
      caller is given the one that built it. */
  lemma {:induction false} OneManager(events: seq<AuthEvent>, later: seq<AuthEvent>)
    requires
      var calls := AuthAfter(events).flight.calls;
      calls != [] && calls[|calls| - 1].result == Some(Built)
    ensures
      var a, b := AuthAfter(events), AuthAfter(events + later);
      && b.flight == a.flight && |a.waits| <= |b.waits|
      && forall i :: |a.waits| <= i < |b.waits| ==> b.waits[i] == |a.flight.calls| - 1
    decreases |later|
  {
    if later == [] {
      assert events + later == events;
    } else {
      var init := later[..|later| - 1];
      assert (events + later)[..|events + later| - 1] == events + init;
      OneManager(events, init);
      AuthAlwaysInv(events + init);
      AuthCurrent(events + init);
      BuiltStep(AuthAfter(events + init), later[|later| - 1]);
      hide AuthNext, AuthInv;
    }
  }
}
