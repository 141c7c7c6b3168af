/** workers/hbom/csv_import.py: `parse`. A fold over rows keeps the forest built so
    far; the open ancestors are its rightmost spine. */
module HbomImport {
  import opened Optional
  import opened Text
  import opened Forest
  import opened HbomModel
  import opened HbomRows

  datatype Fault = NoSuchAncestor | QuantityOverflow

  /** What the loop carries from row to row. */
  datatype Scan = Scan(previous: Option<int>, forest: seq<Tree<Component>>, empty: seq<nat>, capped: seq<nat>)

  /** Rejected is HBOMImportError naming the row; Crashed is any other exception. */
  datatype Outcome = Running(scan: Scan) | Rejected(row: nat, reason: Reason) | Crashed(row: nat, fault: Fault)

  predicate EmptyRow(values: Values) {
    CellOf(values, "level") == "" && forall c :: c in values ==> Strip(values[c]) == ""
  }

  /** Python list indexing: a negative index counts from the end. */
  function PyIndex(length: nat, i: int): (r: Option<nat>)
    ensures r.Some? ==> r.value < length
  {
    if 0 <= i < length then Some(i)
    else if i < 0 && length + i >= 0 then Some(length + i)
    else None
  }

  /** The bound of `del stack[i:]`. */
  function PyCut(length: nat, i: int): (r: nat)
    ensures r <= length
  {
    if i >= 0 then (if i < length then i else length)
    else if length + i >= 0 then length + i
    else 0
  }

  /** The depth a row of this level lands at when `open` ancestors are open. */
  function Place(level: int, open: nat): (d: Option<nat>)
    ensures d.Some? ==> d.value <= open
  {
    if level == 0 || open == 0 then Some(0)
    else
      match PyIndex(open, level - 1)
      case None => None
      case Some(parent) => Some(parent + 1)
  }

  function RowLevel(values: Values): LevelRead {
    ReadLevel(CellOf(values, "level"))
  }

  const START := Scan(None, [], [], [])

  function Wired(c: Component, f: seq<Tree<Component>>, d: nat): Component
    requires d <= Spine(f)
  {
    if d == 0 then c else c.(parentLocalId := Some(OpenAt(f, d - 1).localId))
  }

  /** One turn of the loop. */
  function Step(cfg: Config, s: Scan, values: Values, row: nat): Outcome {
    if row - 1 > cfg.maxRows then Rejected(row, TooManyRows)
    else if EmptyRow(values) then Running(s.(empty := s.empty + [row]))
    else
      match RowLevel(values)
      case Unreadable(reason) => Rejected(row, reason)
      case Level(level) =>
        if s.previous.Some? && level > s.previous.value + 1 then
          Rejected(row, SkippedLevel(level, s.previous.value))
        else if level > MAX_DEPTH then
          Running(s.(capped := s.capped + [row], previous := Some(level)))
        else if QuantityRead(cfg, values).Infinite? then Crashed(row, QuantityOverflow)
        else
          match Place(level, Spine(s.forest))
          case None => Crashed(row, NoSuchAncestor)
          case Some(d) =>
            var c := Wired(RowComponent(cfg, values, level, row), s.forest, d);
            Running(s.(forest := Attach(s.forest, d, c), previous := Some(level)))
  }

  /** The loop over the data rows; the header is row 1. */
  function Run(cfg: Config, rows: seq<Values>): Outcome {
    if rows == [] then Running(START)
    else
      match Run(cfg, rows[..|rows| - 1])
      case Running(s) => Step(cfg, s, rows[|rows| - 1], |rows| + 1)
      case stopped => stopped
  }

  // ---- an independent reading of the file ----------------------------------------

  /** A row the importer keeps: not empty, not over the cap. */
  predicate Kept(cfg: Config, values: Values) {
    && !EmptyRow(values) && RowLevel(values).Level? && RowLevel(values).n <= MAX_DEPTH
    && QuantityRead(cfg, values).Whole?
  }

  /** The kept rows in file order, as unplaced components. */
  function KeptRows(cfg: Config, rows: seq<Values>): seq<Component> {
    if rows == [] then []
    else
      var last := rows[|rows| - 1];
      KeptRows(cfg, rows[..|rows| - 1])
      + if Kept(cfg, last) then [RowComponent(cfg, last, RowLevel(last).n, |rows| + 1)] else []
  }

  /** The level of the last row that is not empty. */
  function LastLevel(rows: seq<Values>): Option<int> {
    if rows == [] then None
    else
      var last := rows[|rows| - 1];
      if EmptyRow(last) || RowLevel(last).Unreadable? then LastLevel(rows[..|rows| - 1])
      else Some(RowLevel(last).n)
  }

  /** No row is more than one level below the row before it. */
  ghost predicate NoSkip(rows: seq<Values>) {
    forall i :: 0 <= i < |rows| ==> !SkipsAt(rows, i)
  }

  predicate SkipsAt(rows: seq<Values>, i: nat)
    requires i < |rows|
  {
    && !EmptyRow(rows[i]) && RowLevel(rows[i]).Level?
    && var p := LastLevel(rows[..i]);
    p.Some? && RowLevel(rows[i]).n > p.value + 1
  }

  /** Every cell the loop reads is readable and the file is short enough. */
  ghost predicate Readable(cfg: Config, rows: seq<Values>) {
    && |rows| <= cfg.maxRows
    && forall i :: 0 <= i < |rows| ==>
      EmptyRow(rows[i]) || (RowLevel(rows[i]).Level? && QuantityRead(cfg, rows[i]).Whole?)
  }

  /** The first kept row is the product, at level 0, and no level cell is only dots. */
  ghost predicate Rooted(cfg: Config, rows: seq<Values>) {
    var kept := KeptRows(cfg, rows);
    && (kept != [] ==> kept[0].level == 0)
    && forall i :: 0 <= i < |kept| ==> kept[i].level >= 0
  }

  function Unwired(c: Component): Component {
    c.(parentLocalId := None)
  }

  ghost predicate DepthIsLevel(walk: seq<(nat, Component)>) {
    forall i :: 0 <= i < |walk| ==> walk[i].0 == walk[i].1.level
  }

  // ---- parse, then walk ------------------------------------------------------------

  /** For every file that is accepted, whatever its levels: the walk lists exactly the
      kept rows, in file order, each once; the walk's own cap hides none of them. */
  lemma {:induction false} WalkListsKeptRows(cfg: Config, rows: seq<Values>)
    requires Run(cfg, rows).Running?
    ensures
      var f := Run(cfg, rows).scan.forest;
      && |Preorder(f, 0)| == |KeptRows(cfg, rows)|
      && (forall i :: 0 <= i < |Preorder(f, 0)| ==> Unwired(Preorder(f, 0)[i].1) == KeptRows(cfg, rows)[i])
      && Height(f) <= MAX_DEPTH + 1
      && Spine(f) <= MAX_DEPTH + 1
    decreases |rows|
  {
    hide Step, RowComponent, ReadLevel, QuantityRead, EmptyRow;
    if rows != [] {
      var init, last := rows[..|rows| - 1], rows[|rows| - 1];
      WalkListsKeptRows(cfg, init);
      if Kept(cfg, last) {
        var s := Run(cfg, init).scan;
        var d, c := KeptStep(cfg, s, last, |rows| + 1);
        HeightAfterAttach(s.forest, d, c);
        PlaceWithinCap(RowLevel(last).n, Spine(s.forest));
      } else {
        UnkeptStep(cfg, rows);
      }
    }
  }

  /** Every part has an id of its own and knows its row; the rows of the file are in order. */
  lemma {:induction false} IdsAreOwn(cfg: Config, rows: seq<Values>, i: nat, j: nat)
    requires i < j < |KeptRows(cfg, rows)|
    ensures
      var a, b := KeptRows(cfg, rows)[i], KeptRows(cfg, rows)[j];
      a.localId != b.localId && a.sourceRow.Some? && b.sourceRow.Some? && a.sourceRow.value < b.sourceRow.value
  {
    NumbersRise(cfg, rows);
    var m, n := KeptRows(cfg, rows)[i].sourceRow.value, KeptRows(cfg, rows)[j].sourceRow.value;
    if Decimal(m) == Decimal(n) {
      DecimalInjective(m, n);
    }
    assert ("row-" + Decimal(m))[4..] == Decimal(m) && ("row-" + Decimal(n))[4..] == Decimal(n);
  }

  ghost predicate Numbered(kept: seq<Component>, last: nat) {
    && (forall i :: 0 <= i < |kept| ==> kept[i].sourceRow.Some? && kept[i].sourceRow.value <= last
                                        && kept[i].localId == "row-" + Decimal(kept[i].sourceRow.value))
    && (forall i, j :: 0 <= i < j < |kept| ==> kept[i].sourceRow.value < kept[j].sourceRow.value)
  }

  lemma NumberedSnoc(kept: seq<Component>, n: nat, c: Component)
    requires Numbered(kept, n) && c.sourceRow == Some(n + 1) && c.localId == "row-" + Decimal(n + 1)
    ensures Numbered(kept + [c], n + 1)
  {
    hide Decimal;
  }

  lemma NumberedOn(kept: seq<Component>, n: nat)
    requires Numbered(kept, n)
    ensures Numbered(kept, n + 1)
  {
    hide Decimal;
  }

  lemma {:induction false} NumbersRise(cfg: Config, rows: seq<Values>)
    ensures Numbered(KeptRows(cfg, rows), |rows| + 1)
    decreases |rows|
  {
    if rows != [] {
      var init, last := rows[..|rows| - 1], rows[|rows| - 1];
      NumbersRise(cfg, init);
      NumberedOn(KeptRows(cfg, init), |rows|);
      hide Numbered, ReadLevel, EmptyRow, ColumnAttrs, LastCompliance;
      if Kept(cfg, last) {
        NumberedSnoc(KeptRows(cfg, init), |rows|, RowComponent(cfg, last, RowLevel(last).n, |rows| + 1));
      } else {
        assert KeptRows(cfg, rows) == KeptRows(cfg, init);
      }
    }
  }

  /** Forest g is forest f with one more row, c at depth d. */
  ghost predicate Extends(f: seq<Tree<Component>>, g: seq<Tree<Component>>, d: nat, c: Component) {
    && d <= Spine(f) && g == Attach(f, d, c)
    && Preorder(g, 0) == Preorder(f, 0) + [(d, c)] && Spine(g) == d + 1
  }

  lemma AttachExtends(f: seq<Tree<Component>>, d: nat, c: Component)
    requires d <= Spine(f)
    ensures Extends(f, Attach(f, d, c), d, c)
  {
    PreorderAfterAttach(f, d, c, 0);
    SpineAfterAttach(f, d, c);
  }

  /** What one kept row does. */
  lemma KeptStep(cfg: Config, s: Scan, last: Values, row: nat) returns (d: nat, c: Component)
    requires Step(cfg, s, last, row).Running? && Kept(cfg, last)
    ensures Place(RowLevel(last).n, Spine(s.forest)) == Some(d)
    ensures c == Wired(RowComponent(cfg, last, RowLevel(last).n, row), s.forest, d)
    ensures Extends(s.forest, Step(cfg, s, last, row).scan.forest, d, c)
    ensures Step(cfg, s, last, row).scan.previous == Some(RowLevel(last).n)
  {
    hide RowComponent, ReadLevel, QuantityRead, EmptyRow;
    d := Place(RowLevel(last).n, Spine(s.forest)).value;
    c := Wired(RowComponent(cfg, last, RowLevel(last).n, row), s.forest, d);
    AttachExtends(s.forest, d, c);
  }

  lemma UnkeptRow(cfg: Config, s: Scan, last: Values, row: nat)
    requires Step(cfg, s, last, row).Running? && !Kept(cfg, last)
    ensures Step(cfg, s, last, row).scan.forest == s.forest
  {
  }

  /** A row that is not kept leaves the forest alone. */
  lemma UnkeptStep(cfg: Config, rows: seq<Values>)
    requires rows != [] && Run(cfg, rows).Running? && !Kept(cfg, rows[|rows| - 1])
    ensures Run(cfg, rows[..|rows| - 1]).Running?
    ensures Run(cfg, rows).scan.forest == Run(cfg, rows[..|rows| - 1]).scan.forest
    ensures KeptRows(cfg, rows) == KeptRows(cfg, rows[..|rows| - 1])
  {
    hide RowComponent, ReadLevel, QuantityRead, EmptyRow;
    UnkeptRow(cfg, Run(cfg, rows[..|rows| - 1]).scan, rows[|rows| - 1], |rows| + 1);
  }

  lemma PlaceWithinCap(level: int, open: nat)
    requires level <= MAX_DEPTH && open <= MAX_DEPTH + 1 && Place(level, open).Some?
    ensures Place(level, open).value <= MAX_DEPTH
  {
  }

  /** Nothing is lost without a trace: nodes + over-cap rows + empty rows = data rows. */
  lemma {:induction false} RowsAreAccountedFor(cfg: Config, rows: seq<Values>)
    requires Run(cfg, rows).Running?
    ensures
      var s := Run(cfg, rows).scan;
      |CappedPreorder(s.forest, 0, MAX_DEPTH)| + |s.capped| + |s.empty| == |rows|
    decreases |rows|
  {
    CountRows(cfg, rows);
    WalkListsKeptRows(cfg, rows);
    CapHidesNothing(Run(cfg, rows).scan.forest, 0, MAX_DEPTH);
  }

  lemma {:induction false} CountRows(cfg: Config, rows: seq<Values>)
    requires Run(cfg, rows).Running?
    ensures
      var s := Run(cfg, rows).scan;
      |KeptRows(cfg, rows)| + |s.capped| + |s.empty| == |rows|
    decreases |rows|
  {
    hide RowComponent, ReadLevel, QuantityRead, EmptyRow;
    if rows != [] {
      CountRows(cfg, rows[..|rows| - 1]);
    }
  }

  /** The Python walk (capped) and the TypeScript flatten (uncapped) agree on every accepted file,
      before and after normalization. */
  lemma {:induction false} CappedAndUncappedAgree(cfg: Config, rows: seq<Values>)
    requires Run(cfg, rows).Running?
    ensures
      var f := Run(cfg, rows).scan.forest;
      && CappedPreorder(f, 0, MAX_DEPTH) == Preorder(f, 0)
      && CappedPreorder(CleanForest(f), 0, MAX_DEPTH) == Preorder(CleanForest(f), 0)
      && Preorder(CleanForest(f), 0) == MapRows(Preorder(f, 0), Clean)
  {
    var f := Run(cfg, rows).scan.forest;
    WalkListsKeptRows(cfg, rows);
    HeightOfMap(f, Clean);
    CapHidesNothing(f, 0, MAX_DEPTH);
    CapHidesNothing(CleanForest(f), 0, MAX_DEPTH);
    PreorderOfMap(f, Clean, 0);
  }

  // ---- the stack, and when depth is level -------------------------------------------

  lemma KeptPrefix(cfg: Config, rows: seq<Values>)
    requires rows != []
    ensures KeptRows(cfg, rows[..|rows| - 1]) <= KeptRows(cfg, rows)
  {
    hide RowComponent, ReadLevel, QuantityRead, EmptyRow;
  }

  lemma RootedPrefix(cfg: Config, rows: seq<Values>)
    requires rows != [] && Rooted(cfg, rows)
    ensures Rooted(cfg, rows[..|rows| - 1])
  {
    KeptPrefix(cfg, rows);
    var a, b := KeptRows(cfg, rows[..|rows| - 1]), KeptRows(cfg, rows);
    assert forall i :: 0 <= i < |a| ==> a[i] == b[i];
  }

  lemma {:induction false} PreviousIsLastLevel(cfg: Config, rows: seq<Values>)
    requires Run(cfg, rows).Running?
    ensures Run(cfg, rows).scan.previous == LastLevel(rows)
    decreases |rows|
  {
    hide RowComponent, ReadLevel, QuantityRead, EmptyRow;
    if rows != [] {
      PreviousIsLastLevel(cfg, rows[..|rows| - 1]);
    }
  }

  function Min(a: int, b: int): int {
    if a < b then a else b
  }

  /** With the stack as high as the invariant says, a row lands at its own level. */
  lemma PlaceIsLevel(level: int, s: Scan, first: bool)
    requires 0 <= level <= MAX_DEPTH && (first ==> level == 0)
    requires s.previous.Some? ==> level <= s.previous.value + 1
    requires Spine(s.forest) == (if first then 0 else Min(s.previous.GetOr(0), MAX_DEPTH) + 1)
    requires !first ==> s.previous.Some? && s.previous.value >= 0
    ensures Place(level, Spine(s.forest)) == Some(level)
  {
  }

  /** The stack invariant: after every row min(previous, MAX_DEPTH) + 1 ancestors are
      open, so the parent of the next row is in range; every node sits at its own level. */
  lemma {:induction false} StackInvariant(cfg: Config, rows: seq<Values>)
    requires Run(cfg, rows).Running? && Rooted(cfg, rows)
    ensures
      var s := Run(cfg, rows).scan;
      && Spine(s.forest) == (if KeptRows(cfg, rows) == [] then 0 else Min(s.previous.GetOr(0), MAX_DEPTH) + 1)
      && (KeptRows(cfg, rows) != [] ==> s.previous.Some? && s.previous.value >= 0)
      && DepthIsLevel(Preorder(s.forest, 0))
    decreases |rows|
  {
    hide RowComponent, ReadLevel, QuantityRead, EmptyRow, Attach, Place;
    if rows != [] {
      var init, last := rows[..|rows| - 1], rows[|rows| - 1];
      RootedPrefix(cfg, rows);
      StackInvariant(cfg, init);
      if Kept(cfg, last) {
        StackAfterKept(cfg, rows);
      } else {
        UnkeptStep(cfg, rows);
      }
    }
  }

  lemma {:induction false} StackAfterKept(cfg: Config, rows: seq<Values>)
    requires rows != [] && Run(cfg, rows).Running? && Rooted(cfg, rows) && Kept(cfg, rows[|rows| - 1])
    requires
      var s := Run(cfg, rows[..|rows| - 1]).scan;
      && Spine(s.forest) == (if KeptRows(cfg, rows[..|rows| - 1]) == [] then 0 else Min(s.previous.GetOr(0), MAX_DEPTH) + 1)
      && (KeptRows(cfg, rows[..|rows| - 1]) != [] ==> s.previous.Some? && s.previous.value >= 0)
      && DepthIsLevel(Preorder(s.forest, 0))
    ensures
      var s, level := Run(cfg, rows).scan, RowLevel(rows[|rows| - 1]).n;
      s.previous == Some(level) && 0 <= level <= MAX_DEPTH && Spine(s.forest) == level + 1 && DepthIsLevel(Preorder(s.forest, 0))
  {
    hide RowComponent, ReadLevel, QuantityRead, EmptyRow, Attach, Place, Preorder;
    var s, last := Run(cfg, rows[..|rows| - 1]).scan, rows[|rows| - 1];
    var kept := KeptRows(cfg, rows);
    assert kept[|kept| - 1].level == RowLevel(last).n;
    assert |kept| == 1 ==> kept[0] == kept[|kept| - 1];
    var d, c := KeptStep(cfg, s, last, |rows| + 1);
    PlaceIsLevel(RowLevel(last).n, s, |kept| == 1);
  }

  /** Depth equals level for every node exactly when the file is rooted. */
  lemma {:induction false} DepthIsLevelIffRooted(cfg: Config, rows: seq<Values>)
    requires Run(cfg, rows).Running?
    ensures DepthIsLevel(Preorder(Run(cfg, rows).scan.forest, 0)) <==> Rooted(cfg, rows)
  {
    var f := Run(cfg, rows).scan.forest;
    var walk, kept := Preorder(f, 0), KeptRows(cfg, rows);
    WalkListsKeptRows(cfg, rows);
    if Rooted(cfg, rows) {
      StackInvariant(cfg, rows);
    }
    assert forall i :: 0 <= i < |walk| ==> walk[i].1.level == kept[i].level by {
      assert forall i :: 0 <= i < |walk| ==> Unwired(walk[i].1).level == kept[i].level;
    }
    assert walk != [] ==> walk[0].0 == 0;
  }

  // ---- which files are accepted -----------------------------------------------------

  lemma ReadablePrefix(cfg: Config, rows: seq<Values>)
    requires rows != [] && Readable(cfg, rows)
    ensures Readable(cfg, rows[..|rows| - 1])
  {
    var init := rows[..|rows| - 1];
    assert forall i :: 0 <= i < |init| ==> init[i] == rows[i];
  }

  lemma NoSkipPrefix(rows: seq<Values>)
    requires rows != []
    ensures NoSkip(rows) <==> NoSkip(rows[..|rows| - 1]) && !SkipsAt(rows, |rows| - 1)
  {
    var init := rows[..|rows| - 1];
    forall i | 0 <= i < |init| ensures SkipsAt(init, i) <==> SkipsAt(rows, i) {
      SkipIsLocal(init, rows, i);
    }
  }

  lemma SkipIsLocal(init: seq<Values>, rows: seq<Values>, i: nat)
    requires i < |init| && init <= rows
    ensures SkipsAt(init, i) <==> SkipsAt(rows, i)
  {
    assert init[..i] == rows[..i] && init[i] == rows[i];
  }

  /** A file whose cells are readable is imported with every part at its own level exactly
      when it starts at level 0 and skips no level. */
  lemma {:induction false} AcceptedExactly(cfg: Config, rows: seq<Values>)
    requires Readable(cfg, rows)
    ensures Run(cfg, rows).Running? && DepthIsLevel(Preorder(Run(cfg, rows).scan.forest, 0))
       <==> Rooted(cfg, rows) && NoSkip(rows)
  {
    if Run(cfg, rows).Running? {
      DepthIsLevelIffRooted(cfg, rows);
      RunningSkipsNothing(cfg, rows);
    }
    if Rooted(cfg, rows) && NoSkip(rows) {
      RootedRuns(cfg, rows);
    }
  }

  lemma {:induction false} RunningSkipsNothing(cfg: Config, rows: seq<Values>)
    requires Run(cfg, rows).Running?
    ensures NoSkip(rows)
    decreases |rows|
  {
    hide RowComponent, ReadLevel, QuantityRead, EmptyRow;
    if rows != [] {
      var init := rows[..|rows| - 1];
      RunningSkipsNothing(cfg, init);
      PreviousIsLastLevel(cfg, init);
      NoSkipPrefix(rows);
    }
  }

  lemma {:induction false} RootedRuns(cfg: Config, rows: seq<Values>)
    requires Readable(cfg, rows) && Rooted(cfg, rows) && NoSkip(rows)
    ensures Run(cfg, rows).Running?
    decreases |rows|
  {
    hide RowComponent, ReadLevel, QuantityRead, EmptyRow;
    if rows != [] {
      var init, last := rows[..|rows| - 1], rows[|rows| - 1];
      ReadablePrefix(cfg, rows);
      RootedPrefix(cfg, rows);
      NoSkipPrefix(rows);
      RootedRuns(cfg, init);
      PreviousIsLastLevel(cfg, init);
      StackInvariant(cfg, init);
      if Kept(cfg, last) {
        var kept := KeptRows(cfg, rows);
        assert kept[|kept| - 1].level == RowLevel(last).n;
        assert |kept| == 1 ==> kept[0] == kept[|kept| - 1];
      }
    }
  }

  lemma {:induction false} StoppedStays(cfg: Config, a: seq<Values>, b: seq<Values>)
    requires !Run(cfg, a).Running?
    ensures Run(cfg, a + b) == Run(cfg, a)
    decreases |b|
  {
    if b == [] {
      assert a + b == a;
    } else {
      assert (a + b)[..|a + b| - 1] == a + b[..|b| - 1];
      StoppedStays(cfg, a, b[..|b| - 1]);
    }
  }

  /** A readable, rooted file is rejected at exactly its first skipping row, and the
      error names that row and both levels. */
  lemma {:induction false} RejectedAtFirstSkip(cfg: Config, rows: seq<Values>, i: nat)
    requires i < |rows| && Readable(cfg, rows[..i + 1]) && Rooted(cfg, rows[..i])
    requires NoSkip(rows[..i]) && SkipsAt(rows, i)
    ensures Run(cfg, rows) == Rejected(i + 2, SkippedLevel(RowLevel(rows[i]).n, LastLevel(rows[..i]).value))
  {
    var upTo := rows[..i + 1];
    assert upTo[..|upTo| - 1] == rows[..i] && upTo[i] == rows[i];
    ReadablePrefix(cfg, upTo);
    RootedRuns(cfg, rows[..i]);
    PreviousIsLastLevel(cfg, rows[..i]);
    RowDecides(cfg, rows, i);
    SkipRejects(cfg, Run(cfg, rows[..i]).scan, rows[i], i + 2);
    hide Run, Step, RowComponent, ReadLevel, QuantityRead, EmptyRow;
  }

  lemma SkipRejects(cfg: Config, s: Scan, values: Values, row: nat)
    requires row - 1 <= cfg.maxRows && !EmptyRow(values) && RowLevel(values).Level?
    requires s.previous.Some? && RowLevel(values).n > s.previous.value + 1
    ensures Step(cfg, s, values, row) == Rejected(row, SkippedLevel(RowLevel(values).n, s.previous.value))
  {
    hide RowComponent, ReadLevel, QuantityRead, EmptyRow;
  }

  /** One row at a time: where the rows before it ran, what row i does decides how the file goes on. */
  lemma {:induction false} RowDecides(cfg: Config, rows: seq<Values>, i: nat)
    requires i < |rows| && Run(cfg, rows[..i]).Running?
    ensures Run(cfg, rows[..i + 1]) == Step(cfg, Run(cfg, rows[..i]).scan, rows[i], i + 2)
    ensures !Run(cfg, rows[..i + 1]).Running? ==> Run(cfg, rows) == Run(cfg, rows[..i + 1])
  {
    hide Step;
    assert rows[..i + 1][..i] == rows[..i];
    if !Run(cfg, rows[..i + 1]).Running? {
      StoppedStays(cfg, rows[..i + 1], rows[i + 1..]);
      assert rows[..i + 1] + rows[i + 1..] == rows;
    }
  }

  /** A row with anything in it must have a level: whatever cell is none, the empty one included,
      rejects the file at that row; and so does any row past the limit, even a blank one. */
  lemma {:induction false} RejectedAtBadLevel(cfg: Config, rows: seq<Values>, i: nat)
    requires i < |rows| && Run(cfg, rows[..i]).Running?
    ensures i + 1 > cfg.maxRows ==> Run(cfg, rows) == Rejected(i + 2, TooManyRows)
    ensures i + 1 <= cfg.maxRows && (exists c :: c in rows[i] && !Blank(rows[i][c])) && ReadLevel(CellOf(rows[i], "level")).Unreadable? ==>
      Run(cfg, rows) == Rejected(i + 2, ReadLevel(CellOf(rows[i], "level")).reason)
  {
    RowDecides(cfg, rows, i);
    FilledIsNoEmptyRow(rows[i]);
    hide Run, ReadLevel, EmptyRow, QuantityRead, RowComponent, Blank;
  }

  lemma FilledIsNoEmptyRow(values: Values)
    ensures EmptyRow(values) <==> forall c :: c in values ==> Blank(values[c])
  {
    forall c | c in values ensures Strip(values[c]) == "" <==> Blank(values[c]) {
      StripBlank(values[c]);
    }
    hide Strip, Blank;
  }

  /** Rows that are blank all over, and rows deeper than the cap, are listed by number, and no others. */
  lemma {:induction false} ListedExactly(cfg: Config, rows: seq<Values>, i: nat)
    requires Run(cfg, rows).Running? && i < |rows|
    ensures
      var s := Run(cfg, rows).scan;
      && (i + 2 in s.empty <==> forall c :: c in rows[i] ==> Blank(rows[i][c]))
      && (i + 2 in s.capped <==> !(forall c :: c in rows[i] ==> Blank(rows[i][c])) && ReadLevel(CellOf(rows[i], "level")).Level?
                                 && ReadLevel(CellOf(rows[i], "level")).n > MAX_DEPTH)
  {
    FilledIsNoEmptyRow(rows[i]);
    ListedUpTo(cfg, rows);
    hide Run, ReadLevel, EmptyRow, Blank;
  }

  ghost predicate ListedOk(cfg: Config, rows: seq<Values>, s: Scan) {
    && (forall r :: r in s.empty <==> 2 <= r < |rows| + 2 && EmptyRow(rows[r - 2]))
    && (forall r :: r in s.capped <==> 2 <= r < |rows| + 2 && !EmptyRow(rows[r - 2]) && RowLevel(rows[r - 2]).Level? && RowLevel(rows[r - 2]).n > MAX_DEPTH)
  }

  lemma {:induction false} ListedUpTo(cfg: Config, rows: seq<Values>)
    requires Run(cfg, rows).Running?
    ensures ListedOk(cfg, rows, Run(cfg, rows).scan)
    decreases |rows|
  {
    hide RowComponent, RowLevel, QuantityRead, EmptyRow, Place, Wired;
    if rows != [] {
      var init := rows[..|rows| - 1];
      ListedUpTo(cfg, init);
      assert forall k :: 0 <= k < |init| ==> init[k] == rows[k];
    }
  }

  /** Whatever the file: a skip is reported only at the first skipping row. */
  lemma {:induction false} SkipReportedIsFirst(cfg: Config, rows: seq<Values>)
    requires Run(cfg, rows).Rejected? && Run(cfg, rows).reason.SkippedLevel?
    ensures
      var i := Run(cfg, rows).row - 2;
      && 0 <= i < |rows| && SkipsAt(rows, i) && NoSkip(rows[..i])
      && Run(cfg, rows).reason == SkippedLevel(RowLevel(rows[i]).n, LastLevel(rows[..i]).value)
    decreases |rows|
  {
    hide RowComponent, ReadLevel, QuantityRead, EmptyRow;
    if rows != [] {
      var init := rows[..|rows| - 1];
      if Run(cfg, init).Running? {
        RunningSkipsNothing(cfg, init);
        PreviousIsLastLevel(cfg, init);
      } else {
        SkipReportedIsFirst(cfg, init);
        var i := Run(cfg, rows).row - 2;
        assert init[..i] == rows[..i];
      }
    }
  }

  // ---- the failing family -------------------------------------------------------------

  /** Where a row's parent would be, in plain terms: level n >= 1 needs n open ancestors; a
      cell of dots, level -1, needs two, and lands beside the deepest of them. */
  lemma PlaceExactly(level: int, open: nat)
    requires level >= -1
    ensures Place(level, open) ==
      if level == 0 || open == 0 then Some(0)
      else if level > 0 then (if level <= open then Some(level as nat) else None)
      else if open >= 2 then Some((open - 1) as nat) else None
  {
  }

  /** Kept row k indexes past the stack: it is the second and two levels down, or it is a cell
      of dots while a single ancestor is open. */
  predicate OverrunsAt(kept: seq<Component>, k: nat)
    requires k < |kept|
  {
    k >= 1 && ((k == 1 && kept[1].level >= 2) || (kept[k].level < 0 && (k == 1 || kept[k - 1].level == 0)))
  }

  ghost predicate Overruns(kept: seq<Component>) {
    exists k :: 0 <= k < |kept| && OverrunsAt(kept, k)
  }

  /** How much of the stack is open in any file that did not run off it. */
  ghost predicate StackHeight(s: Scan, kept: seq<Component>) {
    && (kept != [] ==> s.previous.Some?)
    && (|kept| <= 1 ==> Spine(s.forest) == |kept|)
    && (|kept| >= 2 && s.previous.GetOr(0) >= 0 ==> Spine(s.forest) == Min(s.previous.GetOr(0), MAX_DEPTH) + 1)
    && (|kept| >= 2 ==> Spine(s.forest) >= 1 && (Spine(s.forest) == 1 <==> kept[|kept| - 1].level == 0))
  }

  /** A readable file that skips no level crashes, off the stack, exactly when some kept row
      overruns it: the second, if it is at level 2 or deeper; or a cell of dots that is the
      second kept row or follows one at level 0. */
  lemma {:induction false} StackOverrunExactly(cfg: Config, rows: seq<Values>)
    requires Readable(cfg, rows) && NoSkip(rows)
    ensures Run(cfg, rows).Running? || (Run(cfg, rows).Crashed? && Run(cfg, rows).fault == NoSuchAncestor)
    ensures Run(cfg, rows).Crashed? <==> Overruns(KeptRows(cfg, rows))
    ensures Run(cfg, rows).Running? ==> StackHeight(Run(cfg, rows).scan, KeptRows(cfg, rows))
    decreases |rows|
  {
    hide RowComponent, ReadLevel, QuantityRead, EmptyRow, StackHeight, OverrunsAt;
    if rows != [] {
      var init := rows[..|rows| - 1];
      ReadablePrefix(cfg, rows);
      NoSkipPrefix(rows);
      StackOverrunExactly(cfg, init);
      KeptPrefix(cfg, rows);
      if Run(cfg, init).Running? {
        OverrunStep(cfg, rows);
      } else {
        OverrunsStay(KeptRows(cfg, init), KeptRows(cfg, rows));
      }
    } else {
      StartHeight();
    }
  }

  lemma StartHeight()
    ensures StackHeight(START, [])
  {
  }

  lemma OverrunsStay(a: seq<Component>, b: seq<Component>)
    requires a <= b && Overruns(a)
    ensures Overruns(b)
  {
    var k :| 0 <= k < |a| && OverrunsAt(a, k);
    assert OverrunsAt(b, k);
  }

  lemma OverrunsNext(was: seq<Component>, c: Component)
    requires !Overruns(was)
    ensures Overruns(was + [c]) <==> OverrunsAt(was + [c], |was|)
  {
    var kept := was + [c];
    forall k | 0 <= k < |was| ensures OverrunsAt(kept, k) <==> OverrunsAt(was, k) {}
  }

  lemma OverrunStep(cfg: Config, rows: seq<Values>)
    requires rows != [] && Readable(cfg, rows) && NoSkip(rows)
    requires Run(cfg, rows[..|rows| - 1]).Running? && !Overruns(KeptRows(cfg, rows[..|rows| - 1]))
    requires StackHeight(Run(cfg, rows[..|rows| - 1]).scan, KeptRows(cfg, rows[..|rows| - 1]))
    ensures Run(cfg, rows).Running? || (Run(cfg, rows).Crashed? && Run(cfg, rows).fault == NoSuchAncestor)
    ensures Run(cfg, rows).Crashed? <==> Overruns(KeptRows(cfg, rows))
    ensures Run(cfg, rows).Running? ==> StackHeight(Run(cfg, rows).scan, KeptRows(cfg, rows))
  {
    hide RowComponent, ReadLevel, QuantityRead, EmptyRow, Attach, LastLevel, Preorder, Wired, Place, StackHeight, Overruns, OverrunsAt;
    var init, last := rows[..|rows| - 1], rows[|rows| - 1];
    var s := Run(cfg, init).scan;
    PreviousIsLastLevel(cfg, init);
    assert !SkipsAt(rows, |rows| - 1);
    if Kept(cfg, last) {
      var was, c := KeptRows(cfg, init), RowComponent(cfg, last, RowLevel(last).n, |rows| + 1);
      assert KeptRows(cfg, rows) == was + [c];
      OverrunsNext(was, c);
      LastLevelRange(init);
      KeptLands(s, was, c);
      if Run(cfg, rows).Running? {
        var d, _ := KeptStep(cfg, s, last, |rows| + 1);
        KeptHeight(s, Run(cfg, rows).scan, was, c, d);
      }
    } else {
      UnkeptHeight(cfg, rows, s);
    }
  }

  /** A kept row finds its place exactly when it does not overrun. */
  lemma KeptLands(s: Scan, was: seq<Component>, c: Component)
    requires StackHeight(s, was) && -1 <= c.level <= MAX_DEPTH
    requires s.previous.Some? ==> c.level <= s.previous.value + 1
    requires s.previous.Some? ==> s.previous.value >= -1
    ensures Place(c.level, Spine(s.forest)).None? <==> OverrunsAt(was + [c], |was|)
  {
    PlaceExactly(c.level, Spine(s.forest));
    var kept := was + [c];
    assert |was| >= 1 ==> kept[|was| - 1] == was[|was| - 1];
  }

  lemma KeptHeight(s: Scan, t: Scan, was: seq<Component>, c: Component, d: nat)
    requires StackHeight(s, was) && -1 <= c.level <= MAX_DEPTH
    requires Place(c.level, Spine(s.forest)) == Some(d) && Spine(t.forest) == d + 1 && t.previous == Some(c.level)
    ensures StackHeight(t, was + [c])
  {
    PlaceExactly(c.level, Spine(s.forest));
  }

  lemma {:induction false} UnkeptHeight(cfg: Config, rows: seq<Values>, s: Scan)
    requires rows != [] && Readable(cfg, rows) && NoSkip(rows) && Run(cfg, rows[..|rows| - 1]) == Running(s)
    requires s.previous == LastLevel(rows[..|rows| - 1]) && !Kept(cfg, rows[|rows| - 1])
    requires StackHeight(s, KeptRows(cfg, rows[..|rows| - 1])) && !Overruns(KeptRows(cfg, rows[..|rows| - 1]))
    ensures Run(cfg, rows).Running? && !Overruns(KeptRows(cfg, rows))
    ensures StackHeight(Run(cfg, rows).scan, KeptRows(cfg, rows))
  {
    var last := rows[|rows| - 1];
    assert !SkipsAt(rows, |rows| - 1);
    assert KeptRows(cfg, rows) == KeptRows(cfg, rows[..|rows| - 1]);
    UnkeptGoesOn(cfg, s, last, |rows| + 1);
    hide RowComponent, ReadLevel, QuantityRead, EmptyRow, LastLevel, Overruns, Step, KeptRows;
  }

  lemma UnkeptGoesOn(cfg: Config, s: Scan, last: Values, row: nat)
    requires row - 1 <= cfg.maxRows && !Kept(cfg, last)
    requires EmptyRow(last) || (RowLevel(last).Level? && QuantityRead(cfg, last).Whole?)
    requires EmptyRow(last) || !(s.previous.Some? && RowLevel(last).n > s.previous.value + 1)
    ensures
      var t := Step(cfg, s, last, row);
      && t.Running? && t.scan.forest == s.forest
      && t.scan.previous == (if EmptyRow(last) then s.previous else Some(RowLevel(last).n))
      && (EmptyRow(last) || RowLevel(last).n > MAX_DEPTH)
  {
    hide RowComponent, ReadLevel, QuantityRead, EmptyRow;
  }

  /** A cell of dots, in any accepted file: it is a root while nothing is open, crashes while
      one ancestor is, and otherwise silently hangs beside the deepest open one. */
  lemma {:induction false} DotsRowLands(cfg: Config, rows: seq<Values>)
    requires rows != [] && |rows| <= cfg.maxRows && Run(cfg, rows[..|rows| - 1]).Running?
    requires OnlyDots(CellOf(rows[|rows| - 1], "level")) && QuantityRead(cfg, rows[|rows| - 1]).Whole?
    ensures
      var f, open := Run(cfg, rows[..|rows| - 1]).scan.forest, Spine(Run(cfg, rows[..|rows| - 1]).scan.forest);
      if open == 1 then Run(cfg, rows) == Crashed(|rows| + 1, NoSuchAncestor)
      else
        var d: nat := if open == 0 then 0 else open - 1;
        && Run(cfg, rows).Running?
        && var c := Wired(RowComponent(cfg, rows[|rows| - 1], -1, |rows| + 1), f, d);
           Preorder(Run(cfg, rows).scan.forest, 0) == Preorder(f, 0) + [(d, c)]
  {
    hide RowComponent, ReadLevel, QuantityRead, Attach, Wired, Place;
    var init, last := rows[..|rows| - 1], rows[|rows| - 1];
    var s := Run(cfg, init).scan;
    NegativeLevelIsDots(CellOf(last, "level"));
    PreviousIsLastLevel(cfg, init);
    LastLevelRange(init);
    PlaceExactly(-1, Spine(s.forest));
    if Spine(s.forest) != 1 {
      var d, c := KeptStep(cfg, s, last, |rows| + 1);
    }
  }

  lemma {:induction false} LastLevelRange(rows: seq<Values>)
    ensures LastLevel(rows).Some? ==> LastLevel(rows).value >= -1
    decreases |rows|
  {
    hide ReadLevel, EmptyRow;
    if rows != [] {
      LastLevelRange(rows[..|rows| - 1]);
    }
  }

  function LevelOnly(text: string): Values {
    map["level" := text]
  }

  /** The documented "1 is the product" start: levels 1, 2 crash. */
  lemma StartingAtOneCrashes(cfg: Config)
    requires cfg.maxRows >= 2
    ensures Run(cfg, [LevelOnly("1"), LevelOnly("2")]) == Crashed(3, NoSuchAncestor)
  {
    var a, b := LevelOnly("1"), LevelOnly("2");
    LevelOnlyRow(cfg, 1);
    LevelOnlyRow(cfg, 2);
    assert Decimal(1) == "1" && Decimal(2) == "2";
    assert [a, b][..1] == [a] && [a][..0] == [];
    assert Run(cfg, [a]) == Step(cfg, START, a, 2);
    LevelOneAlone(cfg, a);
  }

  lemma LevelOneAlone(cfg: Config, a: Values)
    requires cfg.maxRows >= 1 && !EmptyRow(a) && RowLevel(a) == Level(1) && QuantityRead(cfg, a).Whole?
    ensures Step(cfg, START, a, 2).Running?
    ensures Spine(Step(cfg, START, a, 2).scan.forest) == 1
    ensures Step(cfg, START, a, 2).scan.previous == Some(1)
  {
    SpineAfterAttach([], 0, RowComponent(cfg, a, 1, 2));
  }

  /** A lone dot reads as level -1 and becomes a root of its own. */
  lemma LoneDotIsARoot(cfg: Config)
    requires cfg.maxRows >= 1
    ensures Run(cfg, [LevelOnly(".")]).Running?
    ensures !Rooted(cfg, [LevelOnly(".")])
  {
    var v := LevelOnly(".");
    assert Trimmed(".");
    StripOfTrimmed(".");
    NegativeLevelIsDots(".");
    SplitJoin(["", ""], '.');
    assert Join(["", ""], ".") == ".";
    assert Split(".", '.') == ["", ""];
    NonBlankPartsEmpty(["", ""]);
    assert RowLevel(v) == Level(-1);
    assert [v][..0] == [];
    assert KeptRows(cfg, [v]) == [RowComponent(cfg, v, -1, 2)];
  }

  lemma LevelOnlyRow(cfg: Config, n: nat)
    ensures RowLevel(LevelOnly(Decimal(n))) == Level(n)
    ensures !EmptyRow(LevelOnly(Decimal(n)))
    ensures QuantityRead(cfg, LevelOnly(Decimal(n))) == Whole(1)
  {
    DigitsAreTrimmed(Decimal(n));
    DecimalLevel(n);
  }

  // ---- parents -------------------------------------------------------------------------

  /** In a walk: j is the nearest earlier row that is less deep than i, one step less. */
  ghost predicate NearestAbove(walk: seq<(nat, Component)>, j: nat, i: nat) {
    && j < i < |walk| && walk[j].0 + 1 == walk[i].0
    && forall t :: j < t < i ==> walk[t].0 >= walk[i].0
  }

  ghost predicate ParentsAreNearest(walk: seq<(nat, Component)>) {
    forall i :: 0 <= i < |walk| ==>
      if walk[i].0 == 0 then walk[i].1.parentLocalId == None
      else exists j: nat :: NearestAbove(walk, j, i) && walk[i].1.parentLocalId == Some(walk[j].1.localId)
  }

  lemma {:induction false} OpenIsNearest<T>(f: seq<Tree<T>>, k: nat, base: nat) returns (j: nat)
    requires k < Spine(f)
    ensures j < |Preorder(f, base)| && Preorder(f, base)[j] == (base + k, OpenAt(f, k))
    ensures forall t :: j < t < |Preorder(f, base)| ==> Preorder(f, base)[t].0 > base + k
    decreases k
  {
    var init, last := f[..|f| - 1], f[|f| - 1];
    assert f == init + [last];
    PreorderConcat(init, [last], base);
    PreorderSingle(last, base);
    PreorderDeep(last.kids, base + 1);
    if k == 0 {
      j := |Preorder(init, base)|;
    } else {
      var i := OpenIsNearest(last.kids, k - 1, base + 1);
      j := |Preorder(init, base)| + 1 + i;
    }
    var before := Preorder(init, base) + [(base, last.data)];
    var tail := Preorder(last.kids, base + 1);
    assert Preorder(f, base) == before + tail;
    forall t | j < t < |Preorder(f, base)| ensures Preorder(f, base)[t].0 > base + k {
      assert Preorder(f, base)[t] == tail[t - |before|];
    }
  }

  lemma {:induction false} PreorderDeep<T>(f: seq<Tree<T>>, base: nat)
    ensures forall t :: 0 <= t < |Preorder(f, base)| ==> Preorder(f, base)[t].0 >= base
    decreases f
  {
    if f != [] {
      PreorderDeep(f[0].kids, base + 1);
      PreorderDeep(f[1..], base);
    }
  }

  /** Every part hangs under the nearest earlier kept row that is less deep, one step above it. */
  lemma {:induction false} ParentIsNearestEarlier(cfg: Config, rows: seq<Values>)
    requires Run(cfg, rows).Running?
    ensures ParentsAreNearest(Preorder(Run(cfg, rows).scan.forest, 0))
    decreases |rows|
  {
    hide RowComponent, ReadLevel, QuantityRead, EmptyRow;
    if rows != [] {
      var init, last := rows[..|rows| - 1], rows[|rows| - 1];
      ParentIsNearestEarlier(cfg, init);
      if Kept(cfg, last) {
        var s := Run(cfg, init).scan;
        var d, c := KeptStep(cfg, s, last, |rows| + 1);
        WiredIsNearest(s.forest, RowComponent(cfg, last, RowLevel(last).n, |rows| + 1), d);
      } else {
        UnkeptStep(cfg, rows);
      }
    }
  }

  lemma {:induction false} WiredIsNearest(f: seq<Tree<Component>>, c: Component, d: nat)
    requires d <= Spine(f) && c.parentLocalId == None && ParentsAreNearest(Preorder(f, 0))
    ensures ParentsAreNearest(Preorder(f, 0) + [(d, Wired(c, f, d))])
  {
    var j := 0;
    if d > 0 {
      j := OpenIsNearest(f, d - 1, 0);
    }
    NearestSnoc(Preorder(f, 0), (d, Wired(c, f, d)), j);
  }

  lemma {:induction false} NearestSnoc(walk: seq<(nat, Component)>, x: (nat, Component), j: nat)
    requires ParentsAreNearest(walk)
    requires x.0 == 0 ==> x.1.parentLocalId == None
    requires x.0 > 0 ==>
      && j < |walk| && walk[j].0 + 1 == x.0 && x.1.parentLocalId == Some(walk[j].1.localId)
      && forall t :: j < t < |walk| ==> walk[t].0 > walk[j].0
    ensures ParentsAreNearest(walk + [x])
  {
    var all := walk + [x];
    forall i | 0 <= i < |all|
      ensures if all[i].0 == 0 then all[i].1.parentLocalId == None
              else exists j: nat :: NearestAbove(all, j, i) && all[i].1.parentLocalId == Some(all[j].1.localId)
    {
      if i == |walk| {
        if x.0 > 0 {
          assert NearestAbove(all, j, i);
        }
      } else {
        assert all[i] == walk[i];
        if walk[i].0 > 0 {
          var k: nat :| NearestAbove(walk, k, i) && walk[i].1.parentLocalId == Some(walk[k].1.localId);
          assert NearestAbove(all, k, i);
        }
      }
    }
  }

  // ---- walk, then parse ------------------------------------------------------------------

  /** Rows whose level cells spell out the walk of a forest. */
  ghost predicate Spells<T>(rows: seq<Values>, g: seq<Tree<T>>) {
    && |rows| == |Preorder(g, 0)|
    && forall i :: 0 <= i < |rows| ==> RowLevel(rows[i]) == Level(Preorder(g, 0)[i].0) && !EmptyRow(rows[i])
  }

  /** Two forests with the same walk are the same forest. */
  lemma WalkDeterminesForest<T>(f: seq<Tree<T>>, g: seq<Tree<T>>)
    requires Preorder(f, 0) == Preorder(g, 0)
    ensures f == g
  {
    RebuildFromWalk(f);
    RebuildFromWalk(g);
  }

  lemma {:induction false} LegalPrefix<T>(open: nat, rows: seq<(nat, T)>, i: nat)
    requires Legal(open, rows) && i < |rows|
    ensures rows[i].0 <= if i == 0 then open else rows[i - 1].0 + 1
    decreases i
  {
    if i > 0 {
      LegalPrefix(rows[0].0 + 1, rows[1..], i - 1);
    }
  }

  /** What a spelled file's kept rows are. */
  ghost function SpelledComponents<T>(cfg: Config, rows: seq<Values>, g: seq<Tree<T>>, n: nat): (r: seq<Component>)
    requires |rows| == |Preorder(g, 0)| && n <= |rows|
    requires forall i :: 0 <= i < |rows| ==> QuantityRead(cfg, rows[i]).Whole?
    ensures |r| == n
  {
    seq(n, i requires 0 <= i < n => RowComponent(cfg, rows[i], Preorder(g, 0)[i].0, i + 2))
  }

  lemma KeptSnoc(cfg: Config, rows: seq<Values>, last: Values)
    requires Kept(cfg, last)
    ensures KeptRows(cfg, rows + [last])
         == KeptRows(cfg, rows) + [RowComponent(cfg, last, RowLevel(last).n, |rows| + 2)]
  {
    hide RowComponent, RowLevel, EmptyRow;
    var all := rows + [last];
    assert all[..|all| - 1] == rows && all[|all| - 1] == last;
  }

  lemma SpelledSnoc<T>(cfg: Config, rows: seq<Values>, g: seq<Tree<T>>, n: nat)
    requires |rows| == |Preorder(g, 0)| && n < |rows|
    requires forall i :: 0 <= i < |rows| ==> QuantityRead(cfg, rows[i]).Whole?
    ensures SpelledComponents(cfg, rows, g, n + 1)
         == SpelledComponents(cfg, rows, g, n) + [RowComponent(cfg, rows[n], Preorder(g, 0)[n].0, n + 2)]
  {
  }

  lemma {:induction false} SpelledRowsKept<T>(cfg: Config, rows: seq<Values>, g: seq<Tree<T>>, n: nat)
    requires Spells(rows, g) && Height(g) <= MAX_DEPTH + 1 && n <= |rows|
    requires forall i :: 0 <= i < |rows| ==> QuantityRead(cfg, rows[i]).Whole?
    ensures KeptRows(cfg, rows[..n]) == SpelledComponents(cfg, rows, g, n)
    decreases n
  {
    hide RowComponent, ReadLevel, QuantityRead, EmptyRow;
    if n > 0 {
      var k := n - 1;
      SpelledRowsKept(cfg, rows, g, k);
      DepthBelowHeight(g, 0, k);
      KeptSnoc(cfg, rows[..k], rows[k]);
      assert rows[..n] == rows[..k] + [rows[k]];
      SpelledSnoc(cfg, rows, g, k);
    }
  }

  lemma {:induction false} SpelledNoSkip<T>(rows: seq<Values>, g: seq<Tree<T>>)
    requires Spells(rows, g)
    ensures NoSkip(rows)
  {
    hide ReadLevel, EmptyRow;
    PreorderLegal(g, 0, 0);
    forall i | 0 <= i < |rows| ensures !SkipsAt(rows, i) {
      LegalPrefix(0, Preorder(g, 0), i);
      SpelledRowFits(rows, g, i);
    }
  }

  lemma SpelledRowFits<T>(rows: seq<Values>, g: seq<Tree<T>>, i: nat)
    requires Spells(rows, g) && i < |rows|
    requires i > 0 ==> Preorder(g, 0)[i].0 <= Preorder(g, 0)[i - 1].0 + 1
    ensures !SkipsAt(rows, i)
  {
    hide ReadLevel, EmptyRow;
    if i > 0 {
      var before := rows[..i];
      assert before[|before| - 1] == rows[i - 1];
      assert LastLevel(before) == Some(RowLevel(rows[i - 1]).n);
    }
  }

  lemma {:induction false} DepthBelowHeight<T>(f: seq<Tree<T>>, base: nat, i: nat)
    requires i < |Preorder(f, base)|
    ensures Preorder(f, base)[i].0 < base + Height(f)
    decreases f
  {
    var mine, rest := Preorder(f[0].kids, base + 1), Preorder(f[1..], base);
    if i == 0 {
    } else if i - 1 < |mine| {
      DepthBelowHeight(f[0].kids, base + 1, i - 1);
    } else {
      DepthBelowHeight(f[1..], base, i - 1 - |mine|);
      assert Preorder(f, base)[i] == rest[i - 1 - |mine|];
    }
  }

  lemma {:induction false} SpelledIsAccepted<T>(cfg: Config, rows: seq<Values>, g: seq<Tree<T>>)
    requires Spells(rows, g) && Height(g) <= MAX_DEPTH + 1 && |rows| <= cfg.maxRows
    requires forall i :: 0 <= i < |rows| ==> QuantityRead(cfg, rows[i]).Whole?
    ensures Rooted(cfg, rows) && Run(cfg, rows).Running?
    ensures KeptRows(cfg, rows) == SpelledComponents(cfg, rows, g, |rows|)
  {
    hide RowComponent, ReadLevel, QuantityRead, EmptyRow, KeptRows, Run, Rooted, NoSkip, Height, Preorder;
    SpelledIsRooted(cfg, rows, g);
    SpelledNoSkip(rows, g);
    RootedRuns(cfg, rows);
  }

  lemma {:induction false} SpelledIsRooted<T>(cfg: Config, rows: seq<Values>, g: seq<Tree<T>>)
    requires Spells(rows, g) && Height(g) <= MAX_DEPTH + 1
    requires forall i :: 0 <= i < |rows| ==> QuantityRead(cfg, rows[i]).Whole?
    ensures KeptRows(cfg, rows) == SpelledComponents(cfg, rows, g, |rows|) && Rooted(cfg, rows)
  {
    hide KeptRows, RowComponent, Height, EmptyRow, ReadLevel;
    SpelledRowsKept(cfg, rows, g, |rows|);
    assert rows[..|rows|] == rows;
    assert rows != [] ==> Preorder(g, 0)[0].0 == 0;
  }

  /** A forest with its data forgotten. */
  ghost function Shape<T>(f: seq<Tree<T>>): seq<Tree<()>> {
    MapForest(f, (x: T) => ())
  }

  /** For every forest of depth at most MAX_DEPTH, importing its rows rebuilds it: node for
      node the component of that row, in the same shape. */
  lemma {:induction false} ImportRebuilds<T>(cfg: Config, rows: seq<Values>, g: seq<Tree<T>>)
    requires Spells(rows, g) && Height(g) <= MAX_DEPTH + 1 && |rows| <= cfg.maxRows
    requires forall i :: 0 <= i < |rows| ==> QuantityRead(cfg, rows[i]).Whole?
    ensures Run(cfg, rows).Running?
    ensures
      var s := Run(cfg, rows).scan;
      var walk := Preorder(s.forest, 0);
      && s.capped == [] && s.empty == [] && |walk| == |rows|
      && (forall i :: 0 <= i < |rows| ==>
            walk[i].0 == Preorder(g, 0)[i].0
            && Unwired(walk[i].1) == RowComponent(cfg, rows[i], walk[i].0, i + 2))
      && Shape(s.forest) == Shape(g)
  {
    hide RowComponent, ReadLevel, QuantityRead, EmptyRow;
    SpelledIsAccepted(cfg, rows, g);
    WalkListsKeptRows(cfg, rows);
    DepthIsLevelIffRooted(cfg, rows);
    CountRows(cfg, rows);
    var f := Run(cfg, rows).scan.forest;
    SpelledDepths(cfg, rows, g, Preorder(f, 0));
    SameShape(f, g);
  }

  lemma SpelledDepths<T>(cfg: Config, rows: seq<Values>, g: seq<Tree<T>>, walk: seq<(nat, Component)>)
    requires |rows| == |Preorder(g, 0)| == |walk|
    requires forall i :: 0 <= i < |rows| ==> QuantityRead(cfg, rows[i]).Whole?
    requires DepthIsLevel(walk)
    requires forall i :: 0 <= i < |walk| ==> Unwired(walk[i].1) == SpelledComponents(cfg, rows, g, |rows|)[i]
    ensures forall i :: 0 <= i < |walk| ==> walk[i].0 == Preorder(g, 0)[i].0
  {
    forall i | 0 <= i < |walk| ensures walk[i].0 == Preorder(g, 0)[i].0 {
      assert walk[i].1.level == Unwired(walk[i].1).level;
    }
  }

  lemma SameShape<S, T>(f: seq<Tree<S>>, g: seq<Tree<T>>)
    requires |Preorder(f, 0)| == |Preorder(g, 0)|
    requires forall i :: 0 <= i < |Preorder(f, 0)| ==> Preorder(f, 0)[i].0 == Preorder(g, 0)[i].0
    ensures Shape(f) == Shape(g)
  {
    PreorderOfMap(f, (x: S) => (), 0);
    PreorderOfMap(g, (x: T) => (), 0);
    assert MapRows(Preorder(f, 0), (x: S) => ()) == MapRows(Preorder(g, 0), (x: T) => ());
    WalkDeterminesForest(MapForest(f, (x: S) => ()), MapForest(g, (x: T) => ()));
  }
}
