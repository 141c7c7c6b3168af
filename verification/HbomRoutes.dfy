/** The rows a nested payload prints as, and the end-to-end agreement of form and file. */
module HbomRoutes {
  import opened Text
  import opened Forest
  import opened HbomModel
  import opened HbomRows
  import opened HbomImport
  import opened HbomForm

  function AtLeastOne(n: int): (r: nat)
    ensures r >= 1
  {
    if n < 1 then 1 else n
  }

  /** No item holds a separator of the compliance cell. */
  predicate Plain(items: seq<string>) {
    forall i :: 0 <= i < |items| ==> ',' !in items[i] && ';' !in items[i]
  }

  /** A payload that fits in a row: its quantity survives the cell, its compliance items hold no separator. */
  predicate Printable(cfg: Config, p: Payload) {
    && p.quantity.Number? && cfg.number(Decimal(AtLeastOne(p.quantity.n))) == Whole(AtLeastOne(p.quantity.n))
    && Plain(FormCompliance(p.compliance))
  }

  function ComplianceCell(items: seq<string>): string {
    if items == [] then "" else Join(items, ",")
  }

  function CellFor(target: Target, p: Payload, depth: nat): string
    requires p.quantity.Number?
  {
    match target
    case LevelColumn => Decimal(depth)
    case QuantityColumn => Decimal(AtLeastOne(p.quantity.n))
    case Ignored => ""
    case ComplianceColumn => ComplianceCell(FormCompliance(p.compliance))
    case TextColumn(a) => Get(p.fields, a)
  }

  /** One payload as one row. */
  function RowFor(columns: Columns, p: Payload, depth: nat): Values
    requires p.quantity.Number?
  {
    if columns == [] then map[]
    else
      var last := columns[|columns| - 1];
      RowFor(columns[..|columns| - 1], p, depth)[last.0 := CellFor(last.1, p, depth)]
  }

  ghost predicate NamesDistinct(columns: Columns) {
    forall i, j :: 0 <= i < j < |columns| ==> columns[i].0 != columns[j].0
  }

  ghost predicate HasTarget(columns: Columns, t: Target) {
    exists i :: 0 <= i < |columns| && columns[i].1 == t
  }

  /** A column table that can carry every field. */
  ghost predicate Complete(columns: Columns) {
    && NamesDistinct(columns)
    && (forall a: Attr :: HasTarget(columns, TextColumn(a)))
    && HasTarget(columns, ComplianceColumn)
    && (exists i :: 0 <= i < |columns| && columns[i] == ("level", LevelColumn))
    && (exists i :: 0 <= i < |columns| && columns[i] == ("quantity", QuantityColumn))
  }

  lemma {:induction false} RowHolds(columns: Columns, p: Payload, depth: nat, i: nat)
    requires p.quantity.Number? && NamesDistinct(columns) && i < |columns|
    ensures columns[i].0 in RowFor(columns, p, depth)
    ensures RowFor(columns, p, depth)[columns[i].0] == CellFor(columns[i].1, p, depth)
    decreases |columns|
  {
    var n := |columns| - 1;
    if i < n {
      assert columns[..n][i] == columns[i];
      RowHolds(columns[..n], p, depth, i);
    }
  }

  /** Every text column of `values` carries the payload's own text. */
  ghost predicate Carries(columns: Columns, values: Values, p: Payload) {
    forall i :: 0 <= i < |columns| ==>
      match columns[i].1
      case TextColumn(a) => CellOf(values, columns[i].0) == Strip(Get(p.fields, a))
      case ComplianceColumn => CellOf(values, columns[i].0) == ComplianceCell(FormCompliance(p.compliance))
      case _ => true
  }

  lemma {:induction false} CarriedText(columns: Columns, values: Values, p: Payload, a: Attr)
    requires Carries(columns, values, p)
    ensures FirstFilled(columns, values, a) == if HasTarget(columns, TextColumn(a)) then Strip(Get(p.fields, a)) else ""
    decreases |columns|
  {
    if columns != [] {
      var rest := columns[1..];
      assert forall i :: 0 <= i < |rest| ==> rest[i] == columns[i + 1];
      CarriedText(rest, values, p, a);
      if HasTarget(columns, TextColumn(a)) && columns[0].1 != TextColumn(a) {
        var i :| 0 <= i < |columns| && columns[i].1 == TextColumn(a);
        assert rest[i - 1].1 == TextColumn(a);
      }
    }
  }

  lemma SemicolonFree(s: string)
    requires ';' !in s
    ensures SemicolonsToCommas(s) == s
  {
  }

  lemma {:induction false} JoinedShape(items: seq<string>)
    requires items != [] && forall i :: 0 <= i < |items| ==> items[i] != "" && Trimmed(items[i])
    ensures Join(items, ",") != "" && Trimmed(Join(items, ","))
    ensures (forall i :: 0 <= i < |items| ==> ';' !in items[i]) ==> ';' !in Join(items, ",")
    decreases |items|
  {
    if |items| > 1 {
      JoinedShape(items[1..]);
      var tail := Join(items[1..], ",");
      var whole := Join(items, ",");
      assert whole == items[0] + "," + tail;
      assert whole[0] == items[0][0] && whole[|whole| - 1] == tail[|tail| - 1];
    }
  }

  /** A printed compliance cell reads back as the items. */
  lemma PrintedCompliance(items: seq<string>)
    requires CleanList(items) == items && Plain(items)
    ensures Strip(ComplianceCell(items)) == ComplianceCell(items)
    ensures items == [] <==> ComplianceCell(items) == ""
    ensures items != [] ==> ComplianceItems(ComplianceCell(items)) == items
  {
    CleanListIdempotent(items);
    if items != [] {
      JoinedShape(items);
      StripOfTrimmed(Join(items, ","));
      SemicolonFree(Join(items, ","));
      SplitJoin(items, ',');
    }
  }

  lemma {:induction false} CarriedCompliance(columns: Columns, values: Values, p: Payload)
    requires Carries(columns, values, p) && Plain(FormCompliance(p.compliance))
    ensures LastCompliance(columns, values)
         == if HasTarget(columns, ComplianceColumn) then FormCompliance(p.compliance) else []
    decreases |columns|
  {
    if columns != [] {
      var n := |columns| - 1;
      var rest := columns[..n];
      CarriedCompliance(rest, values, p);
      FormComplianceIsClean(p.compliance);
      PrintedCompliance(FormCompliance(p.compliance));
      if HasTarget(columns, ComplianceColumn) && columns[n].1 != ComplianceColumn {
        var i :| 0 <= i < |columns| && columns[i].1 == ComplianceColumn;
        assert rest[i].1 == ComplianceColumn;
      }
    }
  }

  lemma FormComplianceIsClean(c: Compliance)
    ensures CleanList(FormCompliance(c)) == FormCompliance(c)
  {
    match c
    case OneText(text) => CleanListIdempotent(Split(SemicolonsToCommas(text), ','));
    case Items(items) => CleanListIdempotent(items);
  }

  lemma {:induction false} RowCarries(columns: Columns, p: Payload, depth: nat)
    requires p.quantity.Number? && NamesDistinct(columns) && Plain(FormCompliance(p.compliance))
    ensures Carries(columns, RowFor(columns, p, depth), p)
  {
    FormComplianceIsClean(p.compliance);
    PrintedCompliance(FormCompliance(p.compliance));
    forall i | 0 <= i < |columns|
      ensures CellOf(RowFor(columns, p, depth), columns[i].0) == Strip(CellFor(columns[i].1, p, depth))
    {
      RowHolds(columns, p, depth, i);
    }
  }

  /** The row a payload prints as says what the payload says, at that level. */
  lemma RowSays(cfg: Config, p: Payload, depth: nat)
    requires Complete(cfg.columns) && Printable(cfg, p)
    ensures Says(cfg, RowFor(cfg.columns, p, depth), p)
    ensures RowLevel(RowFor(cfg.columns, p, depth)) == Level(depth) && !EmptyRow(RowFor(cfg.columns, p, depth))
  {
    var columns, values, q := cfg.columns, RowFor(cfg.columns, p, depth), AtLeastOne(p.quantity.n);
    RowCarries(columns, p, depth);
    forall a ensures FirstFilled(columns, values, a) == Strip(Get(p.fields, a)) {
      CarriedText(columns, values, p, a);
    }
    CarriedCompliance(columns, values, p);
    NumberCells(columns, p, depth);
    DigitsAreTrimmed(Decimal(q));
    DigitsAreTrimmed(Decimal(depth));
    DecimalLevel(depth);
  }

  lemma {:induction false} NumberCells(columns: Columns, p: Payload, depth: nat)
    requires Complete(columns) && p.quantity.Number?
    ensures CellOf(RowFor(columns, p, depth), "level") == Strip(Decimal(depth))
    ensures CellOf(RowFor(columns, p, depth), "quantity") == Strip(Decimal(AtLeastOne(p.quantity.n)))
  {
    var i :| 0 <= i < |columns| && columns[i] == ("level", LevelColumn);
    var j :| 0 <= j < |columns| && columns[j] == ("quantity", QuantityColumn);
    RowHolds(columns, p, depth, i);
    RowHolds(columns, p, depth, j);
  }

  ghost predicate AllPrintable(cfg: Config, walk: seq<(nat, Payload)>) {
    forall i :: 0 <= i < |walk| ==> Printable(cfg, walk[i].1)
  }

  /** A payload printed as a parts list, one row per node in walk order. */
  ghost function PrintedRows(cfg: Config, walk: seq<(nat, Payload)>): (rows: seq<Values>)
    requires AllPrintable(cfg, walk)
    ensures |rows| == |walk|
    ensures forall i :: 0 <= i < |walk| ==> rows[i] == RowFor(cfg.columns, walk[i].1, walk[i].0)
  {
    seq(|walk|, i requires 0 <= i < |walk| => RowFor(cfg.columns, walk[i].1, walk[i].0))
  }

  /** Submitting a payload and importing the parts list it prints as build the same tree,
      apart from local ids and source rows. */
  lemma {:induction false} FormAndFileAgree(cfg: Config, p: Payload)
    requires Acceptable(p, 0) && Complete(cfg.columns)
    requires AllPrintable(cfg, Preorder([PayloadTree(p)], 0)) && |Preorder([PayloadTree(p)], 0)| <= cfg.maxRows
    ensures
      var rows := PrintedRows(cfg, Preorder([PayloadTree(p)], 0));
      && FromPayload(p, 0, "root").Ok? && Run(cfg, rows).Running?
      && MapForest(CleanForest(Run(cfg, rows).scan.forest), Anonymous)
         == MapForest([FromPayload(p, 0, "root").value], Anonymous)
  {
    var walk := Preorder([PayloadTree(p)], 0);
    var rows := PrintedRows(cfg, walk);
    forall i | 0 <= i < |rows|
      ensures Says(cfg, rows[i], walk[i].1) && RowLevel(rows[i]) == Level(walk[i].0) && !EmptyRow(rows[i])
    {
      RowSays(cfg, walk[i].1, walk[i].0);
    }
    hide Says, RowFor, RowLevel, EmptyRow, Printable;
    TwoRoutesAgree(cfg, p, rows);
  }

  /** A row can say a payload exactly when the compliance items hold no separator. */
  lemma SayableExactly(cfg: Config, p: Payload)
    requires Complete(cfg.columns) && p.quantity.Number?
    requires cfg.number(Decimal(AtLeastOne(p.quantity.n))) == Whole(AtLeastOne(p.quantity.n))
    ensures (exists values :: Says(cfg, values, p)) <==> Plain(FormCompliance(p.compliance))
  {
    if Plain(FormCompliance(p.compliance)) {
      RowSays(cfg, p, 0);
    }
    if values :| Says(cfg, values, p) {
      ReadComplianceIsPlain(cfg.columns, values);
    }
  }

  lemma {:induction false} ReadComplianceIsPlain(columns: Columns, values: Values)
    ensures Plain(LastCompliance(columns, values))
    decreases |columns|
  {
    if columns != [] {
      var (name, target) := columns[|columns| - 1];
      SplitItemsPlain(CellOf(values, name));
      ReadComplianceIsPlain(columns[..|columns| - 1], values);
    }
  }

  lemma SplitItemsPlain(text: string)
    ensures Plain(ComplianceItems(text))
  {
    var s := SemicolonsToCommas(text);
    JoinSplit(s, ',');
    PartsWithin(s, ',');
    assert ';' !in s;
    forall i | 0 <= i < |Split(s, ',')| ensures ';' !in Split(s, ',')[i] {}
    CleanedPlain(Split(s, ','));
  }

  /** A part of a split text has only characters of that text. */
  lemma {:induction false} PartsWithin(s: string, sep: char)
    ensures forall i, c :: 0 <= i < |Split(s, sep)| && c in Split(s, sep)[i] ==> c in s
    decreases |s|
  {
    if s != "" {
      PartsWithin(s[1..], sep);
      var rest, parts := Split(s[1..], sep), Split(s, sep);
      forall i, c | 0 <= i < |parts| && c in parts[i] ensures c in s {
        if s[0] == sep {
          assert i > 0 ==> parts[i] == rest[i - 1];
        } else {
          assert parts[i] == if i == 0 then [s[0]] + rest[0] else rest[i];
        }
        assert c in s[1..] ==> c in s;
      }
    }
  }

  lemma {:induction false} CleanedPlain(parts: seq<string>)
    requires Plain(parts)
    ensures Plain(CleanList(parts))
    decreases |parts|
  {
    if parts != [] {
      CleanedPlain(parts[1..]);
      StripShape(parts[0]);
      var a, b :| parts[0] == a + Strip(parts[0]) + b && Blank(a) && Blank(b);
      assert forall c :: c in Strip(parts[0]) ==> c in parts[0];
    }
  }

  /** The shipped column table is such a table. */
  lemma CanonicalIsComplete()
    ensures Complete(CANONICAL_COLUMNS)
  {
    CanonicalNamesDistinct();
    assert CANONICAL_COLUMNS[0] == ("level", LevelColumn);
    assert CANONICAL_COLUMNS[3] == ("quantity", QuantityColumn);
    assert CANONICAL_COLUMNS[19].1 == ComplianceColumn;
    forall a: Attr ensures HasTarget(CANONICAL_COLUMNS, TextColumn(a)) {
      CanonicalCovers(a);
    }
  }

  function ColumnIndex(a: Attr): nat {
    match a
    case ProductName => 8
    case ProductVersion => 9
    case ProductDetails => 2
    case WarrantyAmc => 25
    case ManufacturerName => 4
    case ManufacturerLocation => 11
    case ManufacturingDate => 24
    case SupplierInfo => 13
    case SupplierLocation => 14
    case ModelNumber => 1
    case SerialNumber => 10
    case TechnicalSpecification => 23
    case ComponentSupplierInfo => 6
    case ComponentSupplierLocation => 12
    case TechnologyNode => 18
    case PowerSupply => 20
    case LicenseInfo => 21
    case TestResult => 22
    case FirmwareVersion => 15
    case Origin => 16
    case Criticality => 17
  }

  lemma CanonicalCovers(a: Attr)
    ensures HasTarget(CANONICAL_COLUMNS, TextColumn(a))
  {
    assert CANONICAL_COLUMNS[ColumnIndex(a)].1 == TextColumn(a);
  }

  /** A column's place in the table, told from its length and first letter. */
  function NameIndex(s: string): nat
    requires s != ""
  {
    match |s|
    case 3 => 5
    case 4 => 8
    case 5 => 0
    case 6 => 16
    case 7 => if s[0] == 'v' then 9 else 21
    case 8 => if s[0] == 'q' then 3 else if s[0] == 's' then 6 else 25
    case 9 => 7
    case 10 => 19
    case 11 => if s[0] == 'p' then 1 else if s[0] == 'd' then 2 else if s[0] == 'c' then 17 else 22
    case 12 => if s[0] == 'm' then 4 else 20
    case 13 => 10
    case 15 => 18
    case 16 => if s[0] == 'p' then 13 else 15
    case 17 => 12
    case 18 => 24
    case 21 => 11
    case 23 => 23
    case 25 => 14
    case _ => |CANONICAL_COLUMNS|
  }

  lemma CanonicalNamesDistinct()
    ensures NamesDistinct(CANONICAL_COLUMNS)
  {
    forall i | 0 <= i < |CANONICAL_COLUMNS|
      ensures CANONICAL_COLUMNS[i].0 != "" && NameIndex(CANONICAL_COLUMNS[i].0) == i
    {}
  }
}
