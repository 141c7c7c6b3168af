/** cmd/axebom/source.go: `sourceMaterialize`. Any number of processes stage, verify, open up
    and stamp a tree of their own and race to rename it to one destination. */
module SourceRace {
  import opened Optional

  // ---- makeReadable -----------------------------------------------------------------

  datatype Kind = File | Dir | Link

  /** A file system entry: its mode, and whether Lstat, open, chmod and listing work on it. */
  datatype Item = Item(kind: Kind, readable: bool, stats: bool, opens: bool, chmods: bool, lists: bool, kids: seq<Item>)

  /** `makeReadableIn`: the entry afterwards, and whether the walk goes on. An entry that does
      not open is skipped without an error; one that Lstat fails on is an error. */
  function MakeReadable(t: Item): (bool, Item)
    decreases t, 1
  {
    if !t.stats then (false, t)
    else if t.kind == Link || !t.opens then (true, t)
    else if !t.chmods then (false, t)
    else if t.kind == File then (true, t.(readable := true))
    else if !t.lists then (false, t.(readable := true))
    else
      var (ok, kids) := MakeAllReadable(t.kids);
      (ok, t.(readable := true, kids := kids))
  }

  function MakeAllReadable(ts: seq<Item>): (bool, seq<Item>)
    decreases ts, 0
  {
    if ts == [] then (true, [])
    else
      assert (ts decreases to ts[0]);
      var (ok, first) := MakeReadable(ts[0]);
      if !ok then (false, [first] + ts[1..])
      else
        var (allOk, rest) := MakeAllReadable(ts[1..]);
        (allOk, [first] + rest)
  }

  /** `makeReadable`: a root that cannot be opened as a root is an error. */
  function MakeTreeReadable(rootOpens: bool, t: Item): (bool, Item) {
    if !rootOpens then (false, t) else MakeReadable(t)
  }

  /** Any uid can read every file and enter every directory. */
  predicate Readable(t: Item)
    decreases t, 1
  {
    t.kind == Link || (t.readable && (t.kind == Dir ==> AllReadable(t.kids)))
  }

  predicate AllReadable(ts: seq<Item>)
    decreases ts, 0
  {
    ts == [] || assert (ts decreases to ts[0]); (Readable(ts[0]) && AllReadable(ts[1..]))
  }

  /** Every entry the walk skips was readable before. */
  predicate SkippedWereReadable(t: Item)
    decreases t, 1
  {
    if t.kind == Link then true
    else if !t.opens then Readable(t)
    else t.kind == Dir ==> AllSkippedWereReadable(t.kids)
  }

  predicate AllSkippedWereReadable(ts: seq<Item>)
    decreases ts, 0
  {
    ts == [] || assert (ts decreases to ts[0]); (SkippedWereReadable(ts[0]) && AllSkippedWereReadable(ts[1..]))
  }

  /** A walk that reports no error leaves a readable tree exactly when every entry it
      silently skipped was readable already. */
  lemma {:induction false} ReadableExactly(t: Item)
    requires MakeReadable(t).0
    ensures Readable(MakeReadable(t).1) <==> SkippedWereReadable(t)
    decreases t, 1
  {
    if t.kind == Dir && t.opens && t.chmods && t.lists {
      AllReadableExactly(t.kids);
    }
  }

  lemma {:induction false} AllReadableExactly(ts: seq<Item>)
    requires MakeAllReadable(ts).0
    ensures AllReadable(MakeAllReadable(ts).1) <==> AllSkippedWereReadable(ts)
    decreases ts, 0
  {
    if ts != [] {
      assert (ts decreases to ts[0]);
      ReadableExactly(ts[0]);
      AllReadableExactly(ts[1..]);
      var r := MakeAllReadable(ts).1;
      assert r[0] == MakeReadable(ts[0]).1 && r[1..] == MakeAllReadable(ts[1..]).1;
    }
  }

  /** Nothing the walk meets fails: a link, or an entry that does not open, is as far as it goes. */
  predicate WalkGoesThrough(t: Item)
    decreases t, 1
  {
    && t.stats
    && (t.kind == Link || !t.opens || (t.chmods && (t.kind == File || (t.lists && AllGoThrough(t.kids)))))
  }

  predicate AllGoThrough(ts: seq<Item>)
    decreases ts, 0
  {
    ts == [] || assert (ts decreases to ts[0]); (WalkGoesThrough(ts[0]) && AllGoThrough(ts[1..]))
  }

  /** The same entries, and nothing but modes changed, and those to readable only. */
  predicate OnlyOpenedUp(t: Item, u: Item)
    decreases t, 1
  {
    && (u.kind, u.stats, u.opens, u.chmods, u.lists) == (t.kind, t.stats, t.opens, t.chmods, t.lists)
    && (t.readable ==> u.readable) && AllOnlyOpenedUp(t.kids, u.kids)
    && (t.kind == Link || !t.opens || !t.chmods ==> u == t)
  }

  predicate AllOnlyOpenedUp(ts: seq<Item>, us: seq<Item>)
    decreases ts, 0
  {
    |ts| == |us| && (ts == [] || assert (ts decreases to ts[0]); (OnlyOpenedUp(ts[0], us[0]) && AllOnlyOpenedUp(ts[1..], us[1..])))
  }

  /** The walk ends without an error exactly when nothing it meets fails. */
  lemma {:induction false} WalkEndsExactly(t: Item)
    ensures MakeReadable(t).0 <==> WalkGoesThrough(t)
    decreases t, 1
  {
    if t.kind == Dir && t.stats && t.opens && t.chmods && t.lists {
      AllWalksEnd(t.kids);
    }
  }

  lemma {:induction false} AllWalksEnd(ts: seq<Item>)
    ensures MakeAllReadable(ts).0 <==> AllGoThrough(ts)
    decreases ts, 0
  {
    if ts != [] {
      assert (ts decreases to ts[0]);
      WalkEndsExactly(ts[0]);
      AllWalksEnd(ts[1..]);
    }
  }

  lemma {:induction false} SameIsOpenedUp(ts: seq<Item>)
    ensures AllOnlyOpenedUp(ts, ts)
    decreases ts
  {
    if ts != [] {
      assert (ts decreases to ts[0].kids);
      SameIsOpenedUp(ts[0].kids);
      SameIsOpenedUp(ts[1..]);
    }
  }

  /** With or without an error, the walk changes modes only. */
  lemma {:induction false} WalkOnlyOpensUp(t: Item)
    ensures OnlyOpenedUp(t, MakeReadable(t).1)
    decreases t, 1
  {
    SameIsOpenedUp(t.kids);
    if t.kind == Dir && t.stats && t.opens && t.chmods && t.lists {
      AllOnlyOpenUp(t.kids);
    }
  }

  lemma {:induction false} AllOnlyOpenUp(ts: seq<Item>)
    ensures AllOnlyOpenedUp(ts, MakeAllReadable(ts).1)
    decreases ts, 0
  {
    if ts != [] {
      assert (ts decreases to ts[0]);
      WalkOnlyOpensUp(ts[0]);
      AllOnlyOpenUp(ts[1..]);
      SameIsOpenedUp(ts[1..]);
      var r := MakeAllReadable(ts).1;
      assert r[0] == MakeReadable(ts[0]).1 && r[1..] == if MakeReadable(ts[0]).0 then MakeAllReadable(ts[1..]).1 else ts[1..];
    }
  }

  /** The same for the whole walk, which fails if the root cannot be opened as a root. */
  lemma {:induction false} TreeReadableExactly(rootOpens: bool, t: Item)
    requires MakeTreeReadable(rootOpens, t).0
    ensures rootOpens && t.stats
    ensures Readable(MakeTreeReadable(rootOpens, t).1) <==> SkippedWereReadable(t)
  {
    ReadableExactly(t);
  }

  // ---- the processes --------------------------------------------------------------------

  datatype Config = Config(uri: string, digest: string, force: bool)

  predicate Passes(c: Config, sum: string) {
    c.digest == "" || sum == c.digest
  }

  /** Where a process is. The staging directory is its own, so its tree is part of its state:
      as extracted (`raw`) and as the chmod walk left it. */
  datatype Pc =
    | Starting
    | Missed
    | Staged
    | Extracted(sum: string, tree: Item)
    | Verified(sum: string, tree: Item)
    | Opened(sum: string, raw: Item, tree: Item)
    | Clearing(sum: string, raw: Item, tree: Item)
    | Renaming(sum: string, raw: Item, tree: Item)
    | Lost
    | Succeeded
    | Failed
    | Dead

  /** The destination directory: whose tree it is, which stamp is in it, and whether all of
      that tree is there. */
  datatype Dest = Absent | Present(owner: nat, sum: string, raw: Item, tree: Item, stamp: Option<string>, whole: bool)

  datatype State = State(pcs: seq<Pc>, dest: Dest)

  /** One step of process i; the other fields are what the system calls do. */
  datatype Event =
    | Check(i: nat)
    | Stage(i: nat, works: bool)
    | Extract(i: nat, works: bool, sum: string, tree: Item)
    | Verify(i: nat)
    | Chmod(i: nat, rootOpens: bool)
    | Stamp(i: nat, works: bool)
    | RemoveSome(i: nat, stampToo: bool)
    | RemoveDone(i: nat, works: bool)
    | Rename(i: nat, works: bool)
    | Reread(i: nat)
    | Crash(i: nat)

  predicate StampIs(d: Dest, uri: string) {
    d.Present? && d.stamp == Some(uri)
  }

  function At(s: State, i: nat, pc: Pc): State
    requires i < |s.pcs|
  {
    s.(pcs := s.pcs[i := pc])
  }

  predicate Final(pc: Pc) {
    pc.Succeeded? || pc.Failed? || pc.Dead?
  }

  /** A step the process is not ready for changes nothing. */
  function Next(cs: seq<Config>, s: State, e: Event): (t: State)
    requires |s.pcs| == |cs|
    ensures |t.pcs| == |cs|
  {
    if e.i >= |cs| then s
    else
      var i := e.i;
      var c, pc := cs[i], s.pcs[i];
      match e
      case Check(_) =>
        if !pc.Starting? then s
        else if !c.force && StampIs(s.dest, c.uri) then At(s, i, Succeeded)
        else At(s, i, Missed)
      case Stage(_, works) => if !pc.Missed? then s else At(s, i, if works then Staged else Failed)
      case Extract(_, works, sum, tree) => if !pc.Staged? then s else At(s, i, if works then Extracted(sum, tree) else Failed)
      case Verify(_) => if !pc.Extracted? then s else At(s, i, if Passes(c, pc.sum) then Verified(pc.sum, pc.tree) else Failed)
      case Chmod(_, rootOpens) =>
        if !pc.Verified? then s
        else
          var (ok, tree) := MakeTreeReadable(rootOpens, pc.tree);
          At(s, i, if ok then Opened(pc.sum, pc.tree, tree) else Failed)
      case Stamp(_, works) =>
        if !pc.Opened? then s
        else At(s, i, if !works then Failed else if c.force then Clearing(pc.sum, pc.raw, pc.tree) else Renaming(pc.sum, pc.raw, pc.tree))
      case RemoveSome(_, stampToo) =>
        if !pc.Clearing? || s.dest.Absent? then s
        else s.(dest := s.dest.(whole := false, stamp := if stampToo then None else s.dest.stamp))
      case RemoveDone(_, works) =>
        if !pc.Clearing? then s
        else At(s, i, Renaming(pc.sum, pc.raw, pc.tree)).(dest := if works then Absent else s.dest)
      case Rename(_, works) =>
        if !pc.Renaming? then s
        else if works && s.dest.Absent? then
          At(s, i, Succeeded).(dest := Present(i, pc.sum, pc.raw, pc.tree, Some(c.uri), true))
        else At(s, i, Lost)
      case Reread(_) =>
        if !pc.Lost? then s else At(s, i, if StampIs(s.dest, c.uri) then Succeeded else Failed)
      case Crash(_) => if Final(pc) then s else At(s, i, Dead)
  }

  function Run(cs: seq<Config>, s: State, events: seq<Event>): (t: State)
    requires |s.pcs| == |cs|
    ensures |t.pcs| == |cs|
    decreases |events|
  {
    if events == [] then s else Run(cs, Next(cs, s, events[0]), events[1..])
  }

  lemma {:induction false} RunConcat(cs: seq<Config>, s: State, a: seq<Event>, b: seq<Event>)
    requires |s.pcs| == |cs|
    ensures Run(cs, s, a + b) == Run(cs, Run(cs, s, a), b)
    decreases |a|
  {
    if a == [] {
      assert a + b == b;
    } else {
      assert (a + b)[0] == a[0] && (a + b)[1..] == a[1..] + b;
      RunConcat(cs, Next(cs, s, a[0]), a[1..], b);
    }
  }

  function Start(n: nat): (s: State)
    ensures |s.pcs| == n && forall i :: 0 <= i < n ==> s.pcs[i] == Starting
  {
    State(seq(n, i => Starting), Absent)
  }

  // ---- safety --------------------------------------------------------------------------

  /** Nobody was asked to force, or there is nobody to disturb. */
  predicate Calm(cs: seq<Config>) {
    |cs| <= 1 || forall i :: 0 <= i < |cs| ==> !cs[i].force
  }

  /** One of these steps was process i extracting this tree, with this digest. */
  predicate FromExtraction(done: seq<Event>, i: nat, sum: string, raw: Item) {
    Extract(i, true, sum, raw) in done
  }

  /** The tree is what the chmod walk left of that extracted tree, without an error. */
  predicate WalkedOver(done: seq<Event>, i: nat, sum: string, raw: Item, tree: Item) {
    FromExtraction(done, i, sum, raw) && MakeReadable(raw) == (true, tree)
  }

  ghost predicate ProcessOk(c: Config, i: nat, pc: Pc, d: Dest, done: seq<Event>) {
    && (pc.Extracted? || pc.Verified? ==> FromExtraction(done, i, pc.sum, pc.tree))
    && (pc.Verified? || pc.Opened? || pc.Clearing? || pc.Renaming? ==> Passes(c, pc.sum))
    && (pc.Opened? || pc.Clearing? || pc.Renaming? ==> WalkedOver(done, i, pc.sum, pc.raw, pc.tree))
    && (pc.Succeeded? ==> StampIs(d, c.uri))
    && (pc.Clearing? ==> c.force)
  }

  /** Absent, or one whole tree that its publisher extracted, that passed the publisher's digest
      check, was walked over by makeReadable without an error and carries the publisher's stamp. */
  ghost predicate DestOk(cs: seq<Config>, s: State, done: seq<Event>)
    requires |s.pcs| == |cs|
  {
    s.dest.Present? ==>
      && s.dest.owner < |cs| && s.dest.whole && s.dest.stamp == Some(cs[s.dest.owner].uri)
      && Passes(cs[s.dest.owner], s.dest.sum) && s.pcs[s.dest.owner].Succeeded?
      && WalkedOver(done, s.dest.owner, s.dest.sum, s.dest.raw, s.dest.tree)
  }

  /** What holds at any moment of a run made of steps from `done`. */
  ghost predicate Inv(cs: seq<Config>, s: State, done: seq<Event>) {
    && |s.pcs| == |cs|
    && (forall i :: 0 <= i < |cs| ==> ProcessOk(cs[i], i, s.pcs[i], s.dest, done))
    && DestOk(cs, s, done)
  }

  /** One step keeps all of it, and never changes a destination that is there. */
  lemma {:induction false} NextKeepsInv(cs: seq<Config>, s: State, e: Event, done: seq<Event>)
    requires Calm(cs) && Inv(cs, s, done) && e in done
    ensures Inv(cs, Next(cs, s, e), done)
    ensures s.dest.Present? ==> Next(cs, s, e).dest == s.dest
  {
    hide MakeReadable, Passes;
    if e.i < |cs| {
      assert ProcessOk(cs[e.i], e.i, s.pcs[e.i], s.dest, done);
      if s.pcs[e.i].Clearing? {
        assert |cs| <= 1;
        assert s.dest.Absent?;
      }
    }
  }

  lemma {:induction false} RunKeepsInv(cs: seq<Config>, s: State, events: seq<Event>, done: seq<Event>)
    requires Calm(cs) && Inv(cs, s, done) && forall e :: e in events ==> e in done
    ensures Inv(cs, Run(cs, s, events), done)
    ensures s.dest.Present? ==> Run(cs, s, events).dest == s.dest
    decreases |events|
  {
    if events != [] {
      NextKeepsInv(cs, s, events[0], done);
      RunKeepsInv(cs, Next(cs, s, events[0]), events[1..], done);
    }
  }

  /** For any interleaving with crashes from an absent destination: the destination is in
      order at every moment; it is readable exactly when every entry its publisher's chmod walk
      skipped was; and every process that succeeded finds its own URI in the stamp. */
  lemma {:induction false} PublishIsSafe(cs: seq<Config>, events: seq<Event>)
    requires Calm(cs)
    ensures
      var s := Run(cs, Start(|cs|), events);
      && DestOk(cs, s, events)
      && (s.dest.Present? ==> (Readable(s.dest.tree) <==> SkippedWereReadable(s.dest.raw)))
      && forall i :: 0 <= i < |cs| && s.pcs[i].Succeeded? ==> StampIs(s.dest, cs[i].uri)
  {
    RunKeepsInv(cs, Start(|cs|), events, events);
    var s := Run(cs, Start(|cs|), events);
    if s.dest.Present? {
      ReadableExactly(s.dest.raw);
    }
  }

  /** A tree, once published, is never replaced. */
  lemma {:induction false} NeverReplaced(cs: seq<Config>, before: seq<Event>, later: seq<Event>)
    requires Calm(cs) && Run(cs, Start(|cs|), before).dest.Present?
    ensures Run(cs, Start(|cs|), before + later).dest == Run(cs, Start(|cs|), before).dest
  {
    RunConcat(cs, Start(|cs|), before, later);
    RunKeepsInv(cs, Start(|cs|), before, before + later);
    RunKeepsInv(cs, Run(cs, Start(|cs|), before), later, before + later);
  }

  /** Of two processes with different URIs at most one ever succeeds. */
  lemma {:induction false} OneUriWins(cs: seq<Config>, events: seq<Event>, i: nat, j: nat)
    requires Calm(cs) && i < |cs| && j < |cs| && cs[i].uri != cs[j].uri
    ensures !(Run(cs, Start(|cs|), events).pcs[i].Succeeded? && Run(cs, Start(|cs|), events).pcs[j].Succeeded?)
  {
    PublishIsSafe(cs, events);
  }

  // ---- a run of one process, undisturbed ---------------------------------------------------

  const PLAIN_FILE := Item(File, true, true, true, true, true, [])

  function Solo(c: Config, i: nat, sum: string): seq<Event> {
    [Check(i), Stage(i, true), Extract(i, true, sum, PLAIN_FILE), Verify(i), Chmod(i, true), Stamp(i, true)]
    + (if c.force then [RemoveDone(i, true)] else [])
    + [Rename(i, true)]
  }

  lemma {:induction false} SoloReaches(cs: seq<Config>, s: State, i: nat, sum: string)
    requires |s.pcs| == |cs| && i < |cs| && s.pcs[i].Starting? && !StampIs(s.dest, cs[i].uri) && Passes(cs[i], sum)
    ensures Run(cs, s, Solo(cs[i], i, sum)[..6])
         == At(s, i, if cs[i].force then Clearing(sum, PLAIN_FILE, PLAIN_FILE) else Renaming(sum, PLAIN_FILE, PLAIN_FILE))
  {
    var es := Solo(cs[i], i, sum)[..6];
    assert es == [Check(i), Stage(i, true), Extract(i, true, sum, PLAIN_FILE), Verify(i), Chmod(i, true), Stamp(i, true)];
    var a := At(s, i, Missed);
    var b, d := At(s, i, Staged), At(s, i, Extracted(sum, PLAIN_FILE));
    var f, g := At(s, i, Verified(sum, PLAIN_FILE)), At(s, i, Opened(sum, PLAIN_FILE, PLAIN_FILE));
    assert Next(cs, s, es[0]) == a && Next(cs, a, es[1]) == b && Next(cs, b, es[2]) == d;
    assert Next(cs, d, es[3]) == f && Next(cs, f, es[4]) == g;
    RunSix(cs, s, es);
  }

  lemma {:induction false} RunSix(cs: seq<Config>, s: State, es: seq<Event>)
    requires |s.pcs| == |cs| && |es| == 6
    ensures Run(cs, s, es)
         == Next(cs, Next(cs, Next(cs, Next(cs, Next(cs, Next(cs, s, es[0]), es[1]), es[2]), es[3]), es[4]), es[5])
  {
    RunTwo(cs, s, es[..2]);
    var t := Run(cs, s, es[..2]);
    RunTwo(cs, t, es[2..4]);
    var u := Run(cs, t, es[2..4]);
    RunTwo(cs, u, es[4..]);
    RunConcat(cs, s, es[..2], es[2..]);
    RunConcat(cs, t, es[2..4], es[4..]);
    assert es[..2] + es[2..] == es && es[2..4] + es[4..] == es[2..];
  }

  lemma {:induction false} RunTwo(cs: seq<Config>, s: State, es: seq<Event>)
    requires |s.pcs| == |cs| && |es| == 2
    ensures Run(cs, s, es) == Next(cs, Next(cs, s, es[0]), es[1])
  {
    var t := Next(cs, s, es[0]);
    assert es[1..] == [es[1]] && [es[1]][1..] == [];
    assert Run(cs, t, [es[1]]) == Run(cs, Next(cs, t, es[1]), []);
  }

  lemma {:induction false} SoloPublishes(cs: seq<Config>, s: State, i: nat, sum: string)
    requires |s.pcs| == |cs| && i < |cs| && s.pcs[i].Starting? && s.dest.Absent? && Passes(cs[i], sum)
    ensures Run(cs, s, Solo(cs[i], i, sum))
         == State(s.pcs[i := Succeeded], Present(i, sum, PLAIN_FILE, PLAIN_FILE, Some(cs[i].uri), true))
  {
    var es := Solo(cs[i], i, sum);
    SoloReaches(cs, s, i, sum);
    RunConcat(cs, s, es[..6], es[6..]);
    assert es[..6] + es[6..] == es;
    var t := Run(cs, s, es[..6]);
    if cs[i].force {
      assert es[6..] == [RemoveDone(i, true), Rename(i, true)];
      RunTwo(cs, t, es[6..]);
    } else {
      assert es[6..] == [Rename(i, true)] && es[6..][1..] == [];
    }
  }

  // ---- where the safety ends ------------------------------------------------------------------

  /** A process that names a digest shares it with everybody who names its URI. */
  predicate DigestsAgree(cs: seq<Config>) {
    forall i, j :: 0 <= i < |cs| && 0 <= j < |cs| && cs[i].uri == cs[j].uri && cs[i].digest != "" ==> cs[j].digest == cs[i].digest
  }

  ghost predicate DigestSound(cs: seq<Config>, s: State)
    requires |s.pcs| == |cs|
  {
    forall i :: 0 <= i < |cs| && s.pcs[i].Succeeded? && cs[i].digest != "" ==> s.dest.Present? && s.dest.sum == cs[i].digest
  }

  ghost predicate AlwaysDigestSound(cs: seq<Config>) {
    forall events :: DigestSound(cs, Run(cs, Start(|cs|), events))
  }

  lemma {:induction false} AgreedDigestsAreSound(cs: seq<Config>, events: seq<Event>)
    requires Calm(cs) && DigestsAgree(cs)
    ensures DigestSound(cs, Run(cs, Start(|cs|), events))
  {
    RunKeepsInv(cs, Start(|cs|), events, events);
  }

  /** The run that breaks it: j publishes alone, then i finds j's stamp and looks no further. */
  lemma {:induction false} AdoptsUnchecked(cs: seq<Config>, i: nat, j: nat, sum: string)
    requires i < |cs| && j < |cs| && i != j && cs[i].uri == cs[j].uri && !cs[i].force
    requires Passes(cs[j], sum) && cs[i].digest != "" && sum != cs[i].digest
    ensures !DigestSound(cs, Run(cs, Start(|cs|), Solo(cs[j], j, sum) + [Check(i)]))
  {
    SoloPublishes(cs, Start(|cs|), j, sum);
    RunConcat(cs, Start(|cs|), Solo(cs[j], j, sum), [Check(i)]);
    var s := Run(cs, Start(|cs|), Solo(cs[j], j, sum));
    assert [Check(i)][1..] == [];
    assert Run(cs, s, [Check(i)]).pcs[i].Succeeded?;
  }

  /** Whoever gave a digest can trust the tree it was told is there, in every run, exactly when
      everybody with that URI gave that digest: a tree that is adopted is not checked again. */
  lemma {:induction false} DigestSoundExactly(cs: seq<Config>)
    requires forall i :: 0 <= i < |cs| ==> !cs[i].force
    ensures AlwaysDigestSound(cs) <==> DigestsAgree(cs)
  {
    if DigestsAgree(cs) {
      forall events ensures DigestSound(cs, Run(cs, Start(|cs|), events)) {
        AgreedDigestsAreSound(cs, events);
      }
    } else {
      var i, j :| 0 <= i < |cs| && 0 <= j < |cs| && cs[i].uri == cs[j].uri && cs[i].digest != "" && cs[j].digest != cs[i].digest;
      var sum := if cs[j].digest == "" then cs[i].digest + "x" else cs[j].digest;
      AdoptsUnchecked(cs, i, j, sum);
    }
  }

  ghost predicate AlwaysWhole(cs: seq<Config>) {
    forall events :: WholeOrAbsent(Run(cs, Start(|cs|), events).dest)
  }

  predicate WholeOrAbsent(d: Dest) {
    d.Present? ==> d.whole
  }

  /** The destination is never seen in pieces, in any run, exactly when nobody forces or the
      one who forces is alone. */
  lemma {:induction false} WholeExactly(cs: seq<Config>)
    ensures AlwaysWhole(cs) <==> Calm(cs)
  {
    if Calm(cs) {
      forall events ensures WholeOrAbsent(Run(cs, Start(|cs|), events).dest) {
        PublishIsSafe(cs, events);
      }
    } else {
      var f :| 0 <= f < |cs| && cs[f].force;
      var q := if f == 0 then 1 else 0;
      ForceTearsDown(cs, f, q);
    }
  }

  /** q has succeeded, and f is deleting under the tree q vouched for. */
  lemma {:induction false} ForceTearsDown(cs: seq<Config>, f: nat, q: nat)
    requires f < |cs| && q < |cs| && f != q && cs[f].force
    ensures exists events :: !WholeOrAbsent(Run(cs, Start(|cs|), events).dest)
  {
    var sum := cs[q].digest;
    var a := Solo(cs[q], q, sum);
    SoloPublishes(cs, Start(|cs|), q, sum);
    var s := Run(cs, Start(|cs|), a);
    var b := [Check(f), Stage(f, true), Extract(f, true, cs[f].digest, PLAIN_FILE), Verify(f), Chmod(f, true), Stamp(f, true)];
    ForcedReaches(cs, s, f);
    RunConcat(cs, Start(|cs|), a, b);
    var t := Run(cs, Start(|cs|), a + b);
    RunConcat(cs, Start(|cs|), a + b, [RemoveSome(f, false)]);
    assert [RemoveSome(f, false)][1..] == [];
    assert !WholeOrAbsent(Run(cs, Start(|cs|), a + b + [RemoveSome(f, false)]).dest);
  }

  lemma {:induction false} ForcedReaches(cs: seq<Config>, s: State, i: nat)
    requires |s.pcs| == |cs| && i < |cs| && s.pcs[i].Starting? && cs[i].force
    ensures Run(cs, s, [Check(i), Stage(i, true), Extract(i, true, cs[i].digest, PLAIN_FILE), Verify(i), Chmod(i, true), Stamp(i, true)])
         == At(s, i, Clearing(cs[i].digest, PLAIN_FILE, PLAIN_FILE))
  {
    var sum := cs[i].digest;
    var es := [Check(i), Stage(i, true), Extract(i, true, sum, PLAIN_FILE), Verify(i), Chmod(i, true), Stamp(i, true)];
    var a := At(s, i, Missed);
    var b, d := At(s, i, Staged), At(s, i, Extracted(sum, PLAIN_FILE));
    var f, g := At(s, i, Verified(sum, PLAIN_FILE)), At(s, i, Opened(sum, PLAIN_FILE, PLAIN_FILE));
    assert Next(cs, s, es[0]) == a && Next(cs, a, es[1]) == b && Next(cs, b, es[2]) == d;
    assert Next(cs, d, es[3]) == f && Next(cs, f, es[4]) == g;
    RunSix(cs, s, es);
  }

  // ---- when a process succeeds and when it fails ---------------------------------------------

  /** Where everybody stands before event a. */
  function Before(cs: seq<Config>, events: seq<Event>, a: nat): (s: State)
    requires a <= |events|
    ensures |s.pcs| == |cs|
  {
    Run(cs, Start(|cs|), events[..a])
  }

  lemma {:induction false} BeforeNext(cs: seq<Config>, events: seq<Event>, a: nat)
    requires a < |events|
    ensures Before(cs, events, a + 1) == Next(cs, Before(cs, events, a), events[a])
  {
    assert events[..a + 1] == events[..a] + [events[a]];
    RunConcat(cs, Start(|cs|), events[..a], [events[a]]);
    var s := Before(cs, events, a);
    assert [events[a]][1..] == [];
    assert Run(cs, s, [events[a]]) == Run(cs, Next(cs, s, events[a]), []);
  }

  /** Event e is a failure of process i: its staging, its extraction, its digest, its chmod walk or
      its stamp, or a stamp that is not its URI when it has lost and looks again. */
  predicate Fails(cs: seq<Config>, s: State, e: Event, i: nat)
    requires |s.pcs| == |cs| && i < |cs|
  {
    && e.i == i
    && match e
       case Stage(_, works) => s.pcs[i].Missed? && !works
       case Extract(_, works, _, _) => s.pcs[i].Staged? && !works
       case Verify(_) => s.pcs[i].Extracted? && cs[i].digest != "" && s.pcs[i].sum != cs[i].digest
       case Chmod(_, rootOpens) => s.pcs[i].Verified? && !(rootOpens && MakeReadable(s.pcs[i].tree).0)
       case Stamp(_, works) => s.pcs[i].Opened? && !works
       case Reread(_) => s.pcs[i].Lost? && !(s.dest.Present? && s.dest.stamp == Some(cs[i].uri))
       case _ => false
  }

  /** Event e makes process i succeed: without force it finds its URI at once; it renames its tree
      to where nothing is; or it has lost and finds its URI when it looks again. */
  predicate Wins(cs: seq<Config>, s: State, e: Event, i: nat)
    requires |s.pcs| == |cs| && i < |cs|
  {
    && e.i == i
    && match e
       case Check(_) => s.pcs[i].Starting? && !cs[i].force && s.dest.Present? && s.dest.stamp == Some(cs[i].uri)
       case Rename(_, works) => s.pcs[i].Renaming? && works && s.dest.Absent?
       case Reread(_) => s.pcs[i].Lost? && s.dest.Present? && s.dest.stamp == Some(cs[i].uri)
       case _ => false
  }

  predicate FailsAt(cs: seq<Config>, events: seq<Event>, a: nat, i: nat)
    requires a < |events| && i < |cs|
  {
    Fails(cs, Before(cs, events, a), events[a], i)
  }

  predicate WinsAt(cs: seq<Config>, events: seq<Event>, a: nat, i: nat)
    requires a < |events| && i < |cs|
  {
    Wins(cs, Before(cs, events, a), events[a], i)
  }

  ghost predicate Failing(cs: seq<Config>, events: seq<Event>, n: nat, i: nat)
    requires n <= |events| && i < |cs|
  {
    exists a :: 0 <= a < n && FailsAt(cs, events, a, i)
  }

  ghost predicate Winning(cs: seq<Config>, events: seq<Event>, n: nat, i: nat)
    requires n <= |events| && i < |cs|
  {
    exists a :: 0 <= a < n && WinsAt(cs, events, a, i)
  }

  lemma {:induction false} OneStep(cs: seq<Config>, s: State, e: Event, i: nat)
    requires |s.pcs| == |cs| && i < |cs|
    ensures Next(cs, s, e).pcs[i] == Failed <==> s.pcs[i] == Failed || Fails(cs, s, e, i)
    ensures Next(cs, s, e).pcs[i] == Succeeded <==> s.pcs[i] == Succeeded || Wins(cs, s, e, i)
    ensures Next(cs, s, e).pcs[i] == Dead <==> s.pcs[i] == Dead || (e == Crash(i) && !s.pcs[i].Succeeded? && !s.pcs[i].Failed?)
  {
    hide MakeReadable;
  }

  lemma {:induction false} EndedUpTo(cs: seq<Config>, events: seq<Event>, n: nat, i: nat)
    requires n <= |events| && i < |cs|
    ensures Before(cs, events, n).pcs[i] == Failed <==> Failing(cs, events, n, i)
    ensures Before(cs, events, n).pcs[i] == Succeeded <==> Winning(cs, events, n, i)
    decreases n
  {
    if n > 0 {
      EndedUpTo(cs, events, n - 1, i);
      BeforeNext(cs, events, n - 1);
      OneStep(cs, Before(cs, events, n - 1), events[n - 1], i);
      hide Before, Fails, Wins, Next;
      assert FailsAt(cs, events, n - 1, i) <==> Fails(cs, Before(cs, events, n - 1), events[n - 1], i);
      assert WinsAt(cs, events, n - 1, i) <==> Wins(cs, Before(cs, events, n - 1), events[n - 1], i);
      assert Failing(cs, events, n, i) <==> Failing(cs, events, n - 1, i) || FailsAt(cs, events, n - 1, i);
      assert Winning(cs, events, n, i) <==> Winning(cs, events, n - 1, i) || WinsAt(cs, events, n - 1, i);
    }
  }

  /** In every run a process has failed exactly when a step of its own failed or it lost to another
      URI, and has succeeded exactly when it found its URI or put its tree in place. */
  lemma {:induction false} EndedExactly(cs: seq<Config>, events: seq<Event>, i: nat)
    requires i < |cs|
    ensures Run(cs, Start(|cs|), events).pcs[i] == Failed <==> Failing(cs, events, |events|, i)
    ensures Run(cs, Start(|cs|), events).pcs[i] == Succeeded <==> Winning(cs, events, |events|, i)
  {
    EndedUpTo(cs, events, |events|, i);
    assert events[..|events|] == events;
  }

  /** How far a process has come, and which step takes it there. */
  function Phase(pc: Pc): Option<nat> {
    match pc
    case Missed => Some(0)
    case Staged => Some(1)
    case Extracted(_, _) => Some(2)
    case Verified(_, _) => Some(3)
    case Opened(_, _, _) => Some(4)
    case Clearing(_, _, _) => Some(5)
    case Renaming(_, _, _) => Some(5)
    case _ => None
  }

  predicate Takes(e: Event, phase: nat) {
    match e
    case Check(_) => phase == 0
    case Stage(_, works) => works && phase == 1
    case Extract(_, works, _, _) => works && phase == 2
    case Verify(_) => phase == 3
    case Chmod(_, rootOpens) => rootOpens && phase == 4
    case Stamp(_, works) => works && phase == 5
    case _ => false
  }

  /** Steps of i that take it to phase 0, 1, ..., `phase` stand among the first n events, in this order. */
  ghost predicate Came(events: seq<Event>, n: nat, i: nat, phase: nat)
    requires n <= |events|
    decreases phase
  {
    exists a :: 0 <= a < n && events[a].i == i && Takes(events[a], phase) && (phase > 0 ==> Came(events, a, i, phase - 1))
  }

  lemma {:induction false} CameStays(events: seq<Event>, n: nat, i: nat, phase: nat)
    requires n < |events| && Came(events, n, i, phase)
    ensures Came(events, n + 1, i, phase)
  {
  }

  lemma {:induction false} CameNow(events: seq<Event>, n: nat, i: nat, phase: nat)
    requires n < |events| && events[n].i == i && Takes(events[n], phase) && (phase > 0 ==> Came(events, n, i, phase - 1))
    ensures Came(events, n + 1, i, phase)
  {
  }

  lemma {:induction false} PhaseStep(cs: seq<Config>, s: State, e: Event, i: nat)
    requires |s.pcs| == |cs| && i < |cs|
    ensures
      var t := Next(cs, s, e);
      Phase(t.pcs[i]) == Phase(s.pcs[i]) || Phase(t.pcs[i]).None?
      || (e.i == i && Takes(e, Phase(t.pcs[i]).value) && Phase(s.pcs[i]) == if Phase(t.pcs[i]).value == 0 then None else Some(Phase(t.pcs[i]).value - 1))
  {
    hide MakeReadable;
  }

  /** Whoever forces clears the destination before the rename, and nobody else does. */
  lemma {:induction false} ForceClears(cs: seq<Config>, s: State, e: Event, i: nat)
    requires |s.pcs| == |cs| && i < |cs|
    ensures
      var was, now := s.pcs[i], Next(cs, s, e).pcs[i];
      && (now.Renaming? && !was.Renaming? ==> if was.Clearing? then e.RemoveDone? else was.Opened? && !cs[i].force)
      && (now.Clearing? && !was.Clearing? ==> was.Opened? && cs[i].force)
  {
    hide MakeReadable;
  }

  /** No step is skipped: whoever is about to rename has looked, staged, extracted, checked the
      digest, opened up the tree and stamped it, in this order. */
  lemma {:induction false} NoStepSkipped(cs: seq<Config>, events: seq<Event>, n: nat, i: nat)
    requires n <= |events| && i < |cs| && Phase(Before(cs, events, n).pcs[i]).Some?
    ensures Came(events, n, i, Phase(Before(cs, events, n).pcs[i]).value)
    decreases n
  {
    if n > 0 {
      var s, t := Before(cs, events, n - 1), Before(cs, events, n);
      BeforeNext(cs, events, n - 1);
      PhaseStep(cs, s, events[n - 1], i);
      hide Before, Next, Takes, Came, Phase;
      if Phase(s.pcs[i]).Some? {
        NoStepSkipped(cs, events, n - 1, i);
      }
      if Phase(t.pcs[i]) == Phase(s.pcs[i]) {
        CameStays(events, n - 1, i, Phase(t.pcs[i]).value);
      } else {
        CameNow(events, n - 1, i, Phase(t.pcs[i]).value);
      }
    }
  }

  /** The step itself works: nothing fails, and what is downloaded has the digest and can be opened up. */
  predicate NoMishap(cs: seq<Config>, e: Event)
    requires e.i < |cs|
  {
    match e
    case Stage(_, works) => works
    case Extract(_, works, sum, tree) => works && Passes(cs[e.i], sum) && MakeReadable(tree).0
    case Chmod(_, rootOpens) => rootOpens
    case Stamp(_, works) => works
    case Rename(_, works) => works
    case _ => true
  }

  ghost predicate Smooth(cs: seq<Config>, s: State, uri: string) {
    && |s.pcs| == |cs|
    && (s.dest.Present? ==> s.dest.stamp == Some(uri))
    && forall i :: 0 <= i < |cs| ==>
      var pc := s.pcs[i];
      && !pc.Clearing? && !pc.Failed? && (pc.Lost? ==> s.dest.Present?)
      && (pc.Extracted? ==> Passes(cs[i], pc.sum))
      && (pc.Extracted? || pc.Verified? ==> MakeReadable(pc.tree).0)
  }

  lemma {:induction false} SmoothStep(cs: seq<Config>, s: State, e: Event, uri: string)
    requires Smooth(cs, s, uri) && e.i < |cs| && NoMishap(cs, e)
    requires forall i :: 0 <= i < |cs| ==> cs[i].uri == uri && !cs[i].force
    ensures Smooth(cs, Next(cs, s, e), uri)
  {
    hide MakeReadable, Passes;
  }

  lemma {:induction false} SmoothRun(cs: seq<Config>, s: State, events: seq<Event>, uri: string)
    requires Smooth(cs, s, uri) && forall e :: e in events ==> e.i < |cs| && NoMishap(cs, e)
    requires forall i :: 0 <= i < |cs| ==> cs[i].uri == uri && !cs[i].force
    ensures Smooth(cs, Run(cs, s, events), uri)
    decreases |events|
  {
    if events != [] {
      SmoothStep(cs, s, events[0], uri);
      hide Smooth, NoMishap;
      SmoothRun(cs, Next(cs, s, events[0]), events[1..], uri);
    }
  }

  /** With one URI, no force and no mishap, everybody who comes to an end succeeds, whoever else
      crashes and in whatever order they run: the losers of the race too. */
  lemma {:induction false} EverybodySucceeds(cs: seq<Config>, events: seq<Event>, i: nat, uri: string)
    requires forall j :: 0 <= j < |cs| ==> cs[j].uri == uri && !cs[j].force
    requires forall e :: e in events ==> e.i < |cs| && NoMishap(cs, e)
    requires i < |cs|
    ensures
      var pc := Run(cs, Start(|cs|), events).pcs[i];
      !pc.Failed? && (Final(pc) ==> pc.Succeeded? || Crash(i) in events)
  {
    SmoothRun(cs, Start(|cs|), events, uri);
    hide MakeReadable, Passes;
    if Run(cs, Start(|cs|), events).pcs[i] == Dead {
      CrashedToDie(cs, Start(|cs|), events, i);
    }
  }

  lemma {:induction false} CrashedToDie(cs: seq<Config>, s: State, events: seq<Event>, i: nat)
    requires |s.pcs| == |cs| && i < |cs| && s.pcs[i] != Dead && Run(cs, s, events).pcs[i] == Dead
    ensures Crash(i) in events
    decreases |events|
  {
    OneStep(cs, s, events[0], i);
    if Next(cs, s, events[0]).pcs[i] != Dead {
      hide Next;
      CrashedToDie(cs, Next(cs, s, events[0]), events[1..], i);
    }
  }

  // ---- what is in the destination ---------------------------------------------------------------

  /** A process about to publish holds a tree of its own, with or without others in its way. */
  ghost predicate OwnTree(c: Config, i: nat, pc: Pc, done: seq<Event>) {
    && (pc.Extracted? || pc.Verified? ==> FromExtraction(done, i, pc.sum, pc.tree))
    && (pc.Verified? || pc.Opened? || pc.Clearing? || pc.Renaming? ==> Passes(c, pc.sum))
    && (pc.Opened? || pc.Clearing? || pc.Renaming? ==> WalkedOver(done, i, pc.sum, pc.raw, pc.tree))
  }

  lemma {:induction false} OwnTreeStep(cs: seq<Config>, s: State, e: Event, i: nat, done: seq<Event>)
    requires |s.pcs| == |cs| && i < |cs| && OwnTree(cs[i], i, s.pcs[i], done) && e in done
    ensures OwnTree(cs[i], i, Next(cs, s, e).pcs[i], done)
  {
    hide MakeReadable, Passes;
  }

  lemma {:induction false} OwnTreeRun(cs: seq<Config>, s: State, events: seq<Event>, i: nat, done: seq<Event>)
    requires |s.pcs| == |cs| && i < |cs| && OwnTree(cs[i], i, s.pcs[i], done) && forall e :: e in events ==> e in done
    ensures OwnTree(cs[i], i, Run(cs, s, events).pcs[i], done)
    decreases |events|
  {
    if events != [] {
      OwnTreeStep(cs, s, events[0], i, done);
      hide OwnTree, Next;
      OwnTreeRun(cs, Next(cs, s, events[0]), events[1..], i, done);
    }
  }

  /** Process i's own tree is there: extracted by it, checked against its digest, walked over and
      stamped with its URI. */
  ghost predicate OwnIsThere(cs: seq<Config>, d: Dest, i: nat, done: seq<Event>)
    requires i < |cs|
  {
    d.Present? && d.owner == i && d.whole && d.stamp == Some(cs[i].uri) && Passes(cs[i], d.sum) && WalkedOver(done, i, d.sum, d.raw, d.tree)
  }

  /** In every run, forced or not, the destination changes in three ways only: a forcing process
      deletes some of it or all of it, or a process renames its own checked tree to where nothing is. */
  lemma {:induction false} DestinationMoves(cs: seq<Config>, events: seq<Event>, a: nat)
    requires a < |events|
    ensures
      var s, t, e := Before(cs, events, a), Before(cs, events, a + 1), events[a];
      if e.i >= |cs| then t.dest == s.dest
      else if e.Rename? && s.pcs[e.i].Renaming? && e.works && s.dest.Absent? then OwnIsThere(cs, t.dest, e.i, events[..a])
      else if e.RemoveDone? && s.pcs[e.i].Clearing? && e.works then t.dest.Absent?
      else if e.RemoveSome? && s.pcs[e.i].Clearing? && s.dest.Present? then
        t.dest == s.dest.(whole := false, stamp := if e.stampToo then None else s.dest.stamp)
      else t.dest == s.dest
  {
    BeforeNext(cs, events, a);
    if events[a].i < |cs| {
      OwnTreeRun(cs, Start(|cs|), events[..a], events[a].i, events[..a]);
    }
    hide Before, MakeReadable, Passes, WalkedOver;
  }

  /** A forcing process whose removal and rename work, with nobody in between, puts its own tree in
      place whatever stood there. */
  lemma {:induction false} ForceTakesOver(cs: seq<Config>, events: seq<Event>, a: nat, i: nat)
    requires i < |cs| && a + 1 < |events| && events[a] == RemoveDone(i, true) && events[a + 1] == Rename(i, true)
    requires Before(cs, events, a).pcs[i].Clearing?
    ensures Before(cs, events, a + 2).pcs[i].Succeeded? && OwnIsThere(cs, Before(cs, events, a + 2).dest, i, events)
  {
    BeforeNext(cs, events, a);
    BeforeNext(cs, events, a + 1);
    DestinationMoves(cs, events, a + 1);
    hide Before, MakeReadable, Passes;
    var d := Before(cs, events, a + 2).dest;
    assert Extract(i, true, d.sum, d.raw) in events[..a + 1];
  }

  // ---- the function itself, with the others running in between -----------------------------

  /** What one call meets: results of its system calls, and what it downloads. */
  datatype Luck = Luck(stageWorks: bool, extractWorks: bool, sum: string, tree: Item, rootOpens: bool, stampWorks: bool,
                       removals: seq<bool>, removeWorks: bool, renameWorks: bool)

  /** Something of its own fails in the call. */
  predicate Unlucky(c: Config, luck: Luck) {
    || !luck.stageWorks || !luck.extractWorks || (c.digest != "" && luck.sum != c.digest)
    || !(luck.rootOpens && MakeReadable(luck.tree).0) || !luck.stampWorks
  }

  ghost predicate NotBy(i: nat, events: seq<Event>) {
    forall k :: 0 <= k < |events| ==> events[k].i != i
  }

  lemma {:induction false} OthersLeaveMe(cs: seq<Config>, s: State, i: nat, events: seq<Event>)
    requires |s.pcs| == |cs| && i < |cs| && NotBy(i, events)
    ensures Run(cs, s, events).pcs[i] == s.pcs[i]
    decreases |events|
  {
    if events != [] {
      assert Next(cs, s, events[0]).pcs[i] == s.pcs[i];
      OthersLeaveMe(cs, Next(cs, s, events[0]), i, events[1..]);
    }
  }

  class Workspace {
    const cs: seq<Config>
    var state: State
    ghost var history: seq<Event>

    constructor (cs: seq<Config>)
      ensures this.cs == cs && Valid() && state == Start(|cs|) && history == []
    {
      this.cs := cs;
      state, history := Start(|cs|), [];
    }

    /** The state is what the history of steps makes of the start. */
    ghost predicate Valid()
      reads this
    {
      |state.pcs| == |cs| && state == Run(cs, Start(|cs|), history)
    }

    /** Process i does one step. */
    method Do(e: Event)
      requires Valid()
      modifies this`state, this`history
      ensures Valid() && state == Next(cs, old(state), e) && history == old(history) + [e]
    {
      RunConcat(cs, Start(|cs|), history, [e]);
      assert [e][1..] == [];
      assert Run(cs, state, [e]) == Run(cs, Next(cs, state, e), []);
      state := Next(cs, state, e);
      history := history + [e];
    }

    /** The other processes do any steps of theirs. */
    method Others(i: nat, events: seq<Event>)
      requires Valid() && i < |cs| && NotBy(i, events)
      modifies this`state, this`history
      ensures Valid() && history == old(history) + events
      ensures state.pcs[i] == old(state.pcs[i])
    {
      OthersLeaveMe(cs, state, i, events);
      RunConcat(cs, Start(|cs|), history, events);
      state := Run(cs, state, events);
      history := history + events;
    }

    /** `sourceMaterialize`: whatever the others do between its statements, it is one of the
        runs reasoned about above, and its result says where its process ended. */
    method SourceMaterialize(i: nat, luck: Luck, others: nat -> seq<Event>) returns (ok: bool)
      requires Valid() && i < |cs| && state.pcs[i] == Starting
      requires forall k :: NotBy(i, others(k))
      modifies this`state, this`history
      ensures Valid() && old(history) <= history
      ensures ok <==> state.pcs[i].Succeeded?
      ensures !ok <==> state.pcs[i].Failed?
      ensures !ok ==> Unlucky(cs[i], luck) || !StampIs(state.dest, cs[i].uri)
      ensures ok && cs[i].force ==> !Unlucky(cs[i], luck)
    {
      hide Run, MakeTreeReadable, NotBy;
      Others(i, others(0));
      Do(Check(i));
      if state.pcs[i] == Succeeded {
        return true;
      }
      Others(i, others(1));
      Do(Stage(i, luck.stageWorks));
      if !luck.stageWorks {
        return false;
      }
      Others(i, others(2));
      Do(Extract(i, luck.extractWorks, luck.sum, luck.tree));
      if !luck.extractWorks {
        return false;
      }
      ok := VerifyAndOpen(i, luck, others);
    }

    method VerifyAndOpen(i: nat, luck: Luck, others: nat -> seq<Event>) returns (ok: bool)
      requires Valid() && i < |cs| && state.pcs[i] == Extracted(luck.sum, luck.tree)
      requires luck.stageWorks && luck.extractWorks
      requires forall k :: NotBy(i, others(k))
      modifies this`state, this`history
      ensures Valid() && old(history) <= history
      ensures ok <==> state.pcs[i].Succeeded?
      ensures !ok <==> state.pcs[i].Failed?
      ensures !ok ==> Unlucky(cs[i], luck) || !StampIs(state.dest, cs[i].uri)
      ensures ok && cs[i].force ==> !Unlucky(cs[i], luck)
    {
      hide Run, MakeTreeReadable, NotBy;
      Others(i, others(3));
      Do(Verify(i));
      if cs[i].digest != "" && luck.sum != cs[i].digest {
        return false;
      }
      ok := OpenAndStamp(i, luck, others);
    }

    method OpenAndStamp(i: nat, luck: Luck, others: nat -> seq<Event>) returns (ok: bool)
      requires Valid() && i < |cs| && state.pcs[i] == Verified(luck.sum, luck.tree)
      requires luck.stageWorks && luck.extractWorks && (cs[i].digest == "" || luck.sum == cs[i].digest)
      requires forall k :: NotBy(i, others(k))
      modifies this`state, this`history
      ensures Valid() && old(history) <= history
      ensures ok <==> state.pcs[i].Succeeded?
      ensures !ok <==> state.pcs[i].Failed?
      ensures !ok ==> Unlucky(cs[i], luck) || !StampIs(state.dest, cs[i].uri)
      ensures ok && cs[i].force ==> !Unlucky(cs[i], luck)
    {
      hide Run, MakeReadable, NotBy;
      Others(i, others(4));
      Do(Chmod(i, luck.rootOpens));
      if !MakeTreeReadable(luck.rootOpens, luck.tree).0 {
        return false;
      }
      Others(i, others(5));
      Do(Stamp(i, luck.stampWorks));
      if !luck.stampWorks {
        return false;
      }
      ok := Publish(i, luck, others);
    }

    method Publish(i: nat, luck: Luck, others: nat -> seq<Event>) returns (ok: bool)
      requires Valid() && i < |cs|
      requires if cs[i].force then state.pcs[i].Clearing? else state.pcs[i].Renaming?
      requires forall k :: NotBy(i, others(k))
      modifies this`state, this`history
      ensures Valid() && old(history) <= history
      ensures ok <==> state.pcs[i].Succeeded?
      ensures !ok <==> state.pcs[i].Failed?
      ensures !ok ==> !StampIs(state.dest, cs[i].uri)
    {
      hide Run, MakeTreeReadable, NotBy;
      if cs[i].force {
        for k := 0 to |luck.removals|
          invariant Valid() && old(history) <= history && state.pcs[i].Clearing?
        {
          Do(RemoveSome(i, luck.removals[k]));
          Others(i, others(8 + k));
        }
        Do(RemoveDone(i, luck.removeWorks));
      }
      Others(i, others(6));
      Do(Rename(i, luck.renameWorks));
      if state.pcs[i] == Succeeded {
        return true;
      }
      Others(i, others(7));
      Do(Reread(i));
      ok := state.pcs[i] == Succeeded;
    }
  }
}
