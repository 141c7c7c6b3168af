/** workers/hbom/csv_import.py, one row at a time: header mapping, the level
    column, and the component a row describes. */
module HbomRows {
  import opened Optional
  import opened Text
  import opened HbomModel

  // ---- _canonicalize ---------------------------------------------------------

  /** What csv.DictReader yields for one field: short rows give `Missing`, the
      surplus of a long row is a list under a header that is `None`. */
  datatype Cell = Missing | Field(text: string) | Surplus(values: seq<string>)

  type RawRow = seq<(Option<string>, Cell)>
  type Mapping = map<string, string>
  type Values = map<string, string>

  function JoinNonEmpty(vs: seq<string>): string {
    if vs == [] then ""
    else if vs[0] == "" then JoinNonEmpty(vs[1..])
    else
      var rest := JoinNonEmpty(vs[1..]);
      if rest == "" then vs[0] else vs[0] + ", " + rest
  }

  function CellText(c: Cell): string {
    match c
    case Missing => ""
    case Field(text) => text
    case Surplus(values) => JoinNonEmpty(values)
  }

  /** A missing field is empty; surplus fields are joined, the empty ones left out. */
  lemma {:induction false} SurplusIsJoined(vs: seq<string>)
    requires vs != [] && forall i :: 0 <= i < |vs| ==> vs[i] != ""
    ensures CellText(Surplus(vs)) == Join(vs, ", ")
    ensures CellText(Missing) == CellText(Surplus([])) == ""
    decreases |vs|
  {
    if |vs| > 1 {
      SurplusIsJoined(vs[1..]);
      assert vs[1..][0] == vs[1] != "";
      assert |Join(vs[1..], ", ")| >= |vs[1]|;
    } else {
      assert vs[1..] == [] && JoinNonEmpty([]) == "" && JoinNonEmpty(vs) == vs[0];
    }
  }

  lemma {:induction false} EmptyIsLeftOut(a: seq<string>, b: seq<string>)
    ensures CellText(Surplus(a + [""] + b)) == CellText(Surplus(a + b))
    decreases |a|
  {
    if a == [] {
      assert (a + [""] + b)[1..] == b && a + b == b;
    } else {
      assert (a + [""] + b)[1..] == a[1..] + [""] + b && (a + b)[1..] == a[1..] + b;
      EmptyIsLeftOut(a[1..], b);
    }
  }

  /** The canonical column a cell goes to, if any. */
  function ColumnOf(mapping: Mapping, header: Option<string>): Option<string> {
    if header.Some? && header.value in mapping && mapping[header.value] != ""
    then Some(mapping[header.value])
    else None
  }

  /** The first cell mapped to column c. */
  ghost function FirstCell(raw: RawRow, mapping: Mapping, c: string): (r: Option<nat>)
    ensures r.Some? ==> r.value < |raw|
  {
    if raw == [] then None
    else
      var last := |raw| - 1;
      var earlier := FirstCell(raw[..last], mapping, c);
      if earlier.Some? then earlier
      else if ColumnOf(mapping, raw[last].0) == Some(c) then Some(last)
      else None
  }

  lemma {:induction false} FirstCellIsFirst(raw: RawRow, mapping: Mapping, c: string)
    ensures match FirstCell(raw, mapping, c)
            case Some(i) => ColumnOf(mapping, raw[i].0) == Some(c)
                            && forall j :: 0 <= j < i ==> ColumnOf(mapping, raw[j].0) != Some(c)
            case None => forall j :: 0 <= j < |raw| ==> ColumnOf(mapping, raw[j].0) != Some(c)
    decreases |raw|
  {
    if raw != [] {
      FirstCellIsFirst(raw[..|raw| - 1], mapping, c);
    }
  }

  /** `out` holds, for every canonical column, the text of the first cell mapped to it. */
  ghost predicate FirstMapped(raw: RawRow, mapping: Mapping, out: Values) {
    forall c: string ::
      match FirstCell(raw, mapping, c)
      case Some(i) => c in out && out[c] == CellText(raw[i].1)
      case None => c !in out
  }

  /** The row under canonical names. */
  function CanonicalValues(raw: RawRow, mapping: Mapping): Values {
    if raw == [] then map[]
    else
      var last := raw[|raw| - 1];
      var earlier := CanonicalValues(raw[..|raw| - 1], mapping);
      var c := ColumnOf(mapping, last.0);
      if c.Some? && c.value !in earlier then earlier[c.value := CellText(last.1)] else earlier
  }

  /** The first mapped column wins. */
  lemma {:induction false} CanonicalIsFirstMapped(raw: RawRow, mapping: Mapping)
    ensures FirstMapped(raw, mapping, CanonicalValues(raw, mapping))
    decreases |raw|
  {
    if raw != [] {
      CanonicalIsFirstMapped(raw[..|raw| - 1], mapping);
    }
  }

  method Canonicalize(raw: RawRow, mapping: Mapping) returns (out: Values)
    ensures out == CanonicalValues(raw, mapping) && FirstMapped(raw, mapping, out)
  {
    out := map[];
    for i := 0 to |raw|
      invariant out == CanonicalValues(raw[..i], mapping)
    {
      assert raw[..i + 1][..i] == raw[..i];
      var c := ColumnOf(mapping, raw[i].0);
      if c.Some? && c.value !in out {
        out := out[c.value := CellText(raw[i].1)];
      }
    }
    assert raw[..|raw|] == raw;
    CanonicalIsFirstMapped(raw, mapping);
  }

  // ---- _parse_level ------------------------------------------------------------

  datatype Reason =
    | NoLevel | BadOutline | NotANumber | NegativeLevel
    | SkippedLevel(level: int, previous: int)
    | TooManyRows

  datatype LevelRead = Level(n: int) | Unreadable(reason: Reason)

  function NonBlankParts(parts: seq<string>): seq<string> {
    if parts == [] then []
    else (if Strip(parts[0]) == "" then [] else [parts[0]]) + NonBlankParts(parts[1..])
  }

  predicate AllNumeric(parts: seq<string>) {
    forall i :: 0 <= i < |parts| ==> Strip(parts[i]) != "" && AllDigits(Strip(parts[i]))
  }

  /** The digits of Python's `int`: single underscores may stand between digits. */
  predicate IsNumeral(s: string) {
    && s != "" && IsDigit(s[0]) && IsDigit(s[|s| - 1])
    && (forall i :: 0 <= i < |s| ==> IsDigit(s[i]) || s[i] == '_')
    && (forall i :: 0 <= i < |s| - 1 ==> !(s[i] == '_' && s[i + 1] == '_'))
  }

  function DropUnderscores(s: string): string {
    if s == "" then ""
    else DropUnderscores(s[..|s| - 1]) + (if s[|s| - 1] == '_' then "" else [s[|s| - 1]])
  }

  lemma {:induction false} DroppedIsDigits(s: string)
    requires forall i :: 0 <= i < |s| ==> IsDigit(s[i]) || s[i] == '_'
    ensures AllDigits(DropUnderscores(s))
    ensures AllDigits(s) ==> DropUnderscores(s) == s
    decreases |s|
  {
    if s != "" {
      DroppedIsDigits(s[..|s| - 1]);
      assert s == s[..|s| - 1] + [s[|s| - 1]];
      if AllDigits(s) {
        assert AllDigits(s[..|s| - 1]);
        assert IsDigit(s[|s| - 1]);
      }
    }
  }

  function NumeralValue(s: string): nat
    requires IsNumeral(s)
  {
    DroppedIsDigits(s);
    DecimalValue(DropUnderscores(s))
  }

  function ReadInt(text: string): Option<int> {
    ReadSigned(Strip(text))
  }

  function ReadSigned(s: string): Option<int> {
    if IsNumeral(s) then Some(NumeralValue(s))
    else if s != "" && s[0] == '-' && IsNumeral(s[1..]) then Some(0 - NumeralValue(s[1..]) as int)
    else if s != "" && s[0] == '+' && IsNumeral(s[1..]) then Some(NumeralValue(s[1..]))
    else None
  }

  /** Digits, in groups joined by single underscores. */
  lemma {:induction false} NumeralIsGroups(s: string)
    ensures IsNumeral(s) <==> forall i :: 0 <= i < |Split(s, '_')| ==> Split(s, '_')[i] != "" && AllDigits(Split(s, '_')[i])
  {
    GroupsFrom(s);
    assert IsNumeral(s) <==> s != "" && s[0] != '_' && Grouped(s);
    hide Split, Grouped;
  }

  /** What may follow in a numeral: it may begin with an underscore. */
  predicate Grouped(s: string) {
    && (forall i :: 0 <= i < |s| ==> IsDigit(s[i]) || s[i] == '_')
    && (forall i :: 0 <= i < |s| - 1 ==> !(s[i] == '_' && s[i + 1] == '_'))
    && (s != "" ==> IsDigit(s[|s| - 1]))
  }

  predicate Groups(parts: seq<string>)
    requires parts != []
  {
    AllDigits(parts[0]) && forall i :: 1 <= i < |parts| ==> parts[i] != "" && AllDigits(parts[i])
  }

  lemma GroupedStep(s: string)
    requires s != ""
    ensures Grouped(s) <==>
      && Grouped(s[1..])
      && if s[0] == '_' then s[1..] != "" && s[1..][0] != '_' else IsDigit(s[0])
  {
    var t := s[1..];
    assert forall i :: 0 <= i < |t| ==> t[i] == s[i + 1];
    if Grouped(t) && (if s[0] == '_' then t != "" && t[0] != '_' else IsDigit(s[0])) {
      assert forall i :: 1 <= i < |s| ==> s[i] == t[i - 1];
    }
  }

  lemma DigitsStep(c: char, s: string)
    ensures AllDigits([c] + s) <==> IsDigit(c) && AllDigits(s)
  {
    var all := [c] + s;
    assert all[0] == c && forall i :: 0 <= i < |s| ==> all[i + 1] == s[i];
    assert forall i :: 1 <= i < |all| ==> all[i] == s[i - 1];
  }

  lemma GroupsStep(c: char, rest: seq<string>)
    requires rest != []
    ensures Groups([""] + rest) <==> Groups(rest) && rest[0] != ""
    ensures Groups([[c] + rest[0]] + rest[1..]) <==> Groups(rest) && IsDigit(c)
  {
    assert AllDigits("");
    DigitsStep(c, rest[0]);
    hide AllDigits;
    var one, two := [""] + rest, [[c] + rest[0]] + rest[1..];
    assert forall i :: 1 <= i < |one| ==> one[i] == rest[i - 1];
    assert forall i :: 0 <= i < |rest| ==> rest[i] == one[i + 1];
    assert forall i :: 1 <= i < |two| ==> two[i] == rest[i];
  }

  lemma {:induction false} GroupsFrom(s: string)
    ensures Grouped(s) <==> Groups(Split(s, '_'))
    ensures Split(s, '_')[0] != "" <==> s != "" && s[0] != '_'
    decreases |s|
  {
    if s != "" {
      GroupsFrom(s[1..]);
      GroupedStep(s);
      GroupsStep(s[0], Split(s[1..], '_'));
      hide Grouped, Groups;
    }
  }

  /** The text is a numeral of this value, with a sign and blanks around it. */
  ghost predicate SaysInt(text: string, sign: string, value: nat) {
    exists a, m, b :: text == a + (sign + m) + b && Blank(a) && Blank(b) && IsNumeral(m) && value == NumeralValue(m)
  }

  lemma NumeralIsTrimmed(sign: string, m: string)
    requires IsNumeral(m) && sign in ["", "+", "-"]
    ensures Trimmed(sign + m) && sign + m != ""
    ensures sign == "" ==> (sign + m) == m
    ensures sign != "" ==> (sign + m)[0] == sign[0] && (sign + m)[1..] == m && !IsNumeral(sign + m)
  {
  }

  function Signed(sign: string, n: nat): int {
    if sign == "-" then 0 - n else n
  }

  lemma SignedIsRead(sign: string, m: string)
    requires IsNumeral(m) && sign in ["", "+", "-"]
    ensures ReadSigned(sign + m) == Some(Signed(sign, NumeralValue(m)))
  {
    NumeralIsTrimmed(sign, m);
    hide IsNumeral, NumeralValue;
    assert sign == "" || sign == "+" || sign == "-";
  }

  lemma SaysIntIsRead(text: string, sign: string, value: nat)
    requires SaysInt(text, sign, value) && sign in ["", "+", "-"]
    ensures ReadInt(text) == Some(Signed(sign, value))
  {
    var a, m, b :| text == a + (sign + m) + b && Blank(a) && Blank(b) && IsNumeral(m) && value == NumeralValue(m);
    NumeralIsTrimmed(sign, m);
    StripAround(a, sign + m, b);
    SignedIsRead(sign, m);
    hide IsNumeral, NumeralValue, Strip, ReadSigned;
  }

  lemma SignedIsSaid(s: string) returns (sign: string, m: string)
    requires ReadSigned(s).Some?
    ensures sign in ["", "+", "-"] && sign + m == s && IsNumeral(m) && ReadSigned(s).value == Signed(sign, NumeralValue(m))
  {
    hide IsNumeral, NumeralValue;
    if IsNumeral(s) {
      sign, m := "", s;
      assert sign + m == s;
    } else {
      sign, m := if s[0] == '-' then "-" else "+", s[1..];
      assert sign + m == s;
    }
  }

  lemma ReadIntSays(text: string) returns (sign: string, n: nat)
    requires ReadInt(text).Some?
    ensures (sign == "" || sign == "+" || sign == "-") && SaysInt(text, sign, n) && ReadInt(text).value == Signed(sign, n)
  {
    StripShape(text);
    var m;
    sign, m := SignedIsSaid(Strip(text));
    n := NumeralValue(m);
    hide IsNumeral, NumeralValue, Strip, ReadSigned, Trimmed, Blank;
    var a, b :| text == a + Strip(text) + b && Blank(a) && Blank(b);
    assert text == a + (sign + m) + b;
  }

  /** Which cells are a level, and why every other cell, the empty one included, is none. With a
      dot in it: if all between the dots is blank or digits. Without: if it is a numeral with or
      without a sign and blanks, and not below 0 (`PlainLevelExactly`). */
  lemma {:induction false} LevelExactly(text: string)
    ensures '.' in text ==> if OutlineFits(Split(text, '.')) then ReadLevel(text).Level? else ReadLevel(text) == Unreadable(BadOutline)
    ensures '.' !in text && text != "" ==>
      ReadLevel(text).Level? || ReadLevel(text) == Unreadable(NegativeLevel) || ReadLevel(text) == Unreadable(NotANumber)
    ensures text == "" <==> ReadLevel(text) == Unreadable(NoLevel)
  {
    OutlineParts(Split(text, '.'));
    hide ReadInt, Split, OutlineFits, NonBlankParts, AllNumeric;
  }

  /** Between the dots there is nothing but digits and blanks. */
  ghost predicate OutlineFits(parts: seq<string>) {
    forall i :: 0 <= i < |parts| ==> Blank(parts[i]) || AllDigits(Strip(parts[i]))
  }

  lemma {:induction false} PlainLevelExactly(text: string, n: nat)
    requires '.' !in text && text != ""
    ensures ReadLevel(text) == Level(n) <==> SaysInt(text, "", n) || SaysInt(text, "+", n) || (n == 0 && SaysInt(text, "-", n))
    ensures SaysInt(text, "-", n) && n > 0 ==> ReadLevel(text) == Unreadable(NegativeLevel)
    ensures ReadLevel(text) == Unreadable(NegativeLevel) ==> exists m: nat :: m > 0 && SaysInt(text, "-", m)
  {
    hide SaysInt, ReadInt;
    if SaysInt(text, "", n) {
      SaysIntIsRead(text, "", n);
    }
    if SaysInt(text, "+", n) {
      SaysIntIsRead(text, "+", n);
    }
    if SaysInt(text, "-", n) {
      SaysIntIsRead(text, "-", n);
    }
    if ReadInt(text).Some? {
      var sign, m := ReadIntSays(text);
    }
  }

  lemma {:induction false} OutlineParts(parts: seq<string>)
    ensures AllNumeric(NonBlankParts(parts)) <==> OutlineFits(parts)
    decreases |parts|
  {
    if parts != [] {
      OutlineParts(parts[1..]);
      StripBlank(parts[0]);
      NumericStep(parts[0], NonBlankParts(parts[1..]));
      hide Strip, Blank, AllNumeric, AllDigits;
      assert [] + NonBlankParts(parts[1..]) == NonBlankParts(parts[1..]);
      assert forall i :: 1 <= i < |parts| ==> parts[i] == parts[1..][i - 1];
      assert forall i :: 0 <= i < |parts[1..]| ==> parts[1..][i] == parts[i + 1];
    }
  }

  lemma NumericStep(x: string, rest: seq<string>)
    ensures AllNumeric([x] + rest) <==> Strip(x) != "" && AllDigits(Strip(x)) && AllNumeric(rest)
  {
    hide Strip, AllDigits;
    var all := [x] + rest;
    assert all[0] == x;
    assert forall i :: 1 <= i < |all| ==> all[i] == rest[i - 1];
    assert forall i :: 0 <= i < |rest| ==> rest[i] == all[i + 1];
  }

  /** An underscore between two numerals does not count. */
  lemma {:induction false} UnderscoresDoNotCount(a: string, b: string)
    requires IsNumeral(a) && IsNumeral(b)
    ensures IsNumeral(a + "_" + b) && IsNumeral(a + b) && NumeralValue(a + "_" + b) == NumeralValue(a + b)
  {
    JoinedNumerals(a, b);
    hide IsNumeral;
    DropConcat(a + "_", b);
    DropConcat(a, "_");
    DropConcat(a, b);
    assert DropUnderscores("_") == "" by {
      assert "_"[..0] == "";
    }
    assert DropUnderscores(a) + "" == DropUnderscores(a);
  }

  lemma JoinedNumerals(a: string, b: string)
    requires IsNumeral(a) && IsNumeral(b)
    ensures IsNumeral(a + "_" + b) && IsNumeral(a + b)
  {
    var s := a + "_" + b;
    assert forall i :: 0 <= i < |s| ==> s[i] == if i < |a| then a[i] else if i == |a| then '_' else b[i - |a| - 1];
  }

  lemma {:induction false} DropConcat(a: string, b: string)
    ensures DropUnderscores(a + b) == DropUnderscores(a) + DropUnderscores(b)
    decreases |b|
  {
    if b == "" {
      assert a + b == a;
    } else {
      assert (a + b)[..|a + b| - 1] == a + b[..|b| - 1];
      DropConcat(a, b[..|b| - 1]);
    }
  }

  function ReadLevel(text: string): (r: LevelRead)
    ensures r.Unreadable? ==> !r.reason.SkippedLevel? && !r.reason.TooManyRows?
    ensures r.Level? ==> r.n >= -1
  {
    if text == "" then Unreadable(NoLevel)
    else if '.' in text then
      var parts := NonBlankParts(Split(text, '.'));
      if !AllNumeric(parts) then Unreadable(BadOutline) else Level(|parts| - 1)
    else
      match ReadInt(text)
      case None => Unreadable(NotANumber)
      case Some(n) => if n < 0 then Unreadable(NegativeLevel) else Level(n)
  }

  lemma DigitsAreTrimmed(s: string)
    requires AllDigits(s)
    ensures Trimmed(s) && Strip(s) == s && '.' !in s
  {
    if s != "" {
      assert IsDigit(s[0]) && IsDigit(s[|s| - 1]);
    }
    StripOfTrimmed(s);
  }

  /** A plain number is its own level. */
  lemma DecimalLevel(n: nat)
    ensures ReadLevel(Decimal(n)) == Level(n)
  {
    var s := Decimal(n);
    DigitsAreTrimmed(s);
    DroppedIsDigits(s);
    DecimalRoundTrip(n);
    assert IsNumeral(s);
  }

  function Numerals(ns: seq<nat>): (r: seq<string>)
    ensures |r| == |ns|
  {
    seq(|ns|, i requires 0 <= i < |ns| => Decimal(ns[i]))
  }

  lemma {:induction false} NonBlankOfNumerals(parts: seq<string>)
    requires forall i :: 0 <= i < |parts| ==> parts[i] != "" && AllDigits(parts[i])
    ensures NonBlankParts(parts) == parts
    decreases |parts|
  {
    if parts != [] {
      DigitsAreTrimmed(parts[0]);
      NonBlankOfNumerals(parts[1..]);
    }
  }

  lemma JoinHasSeparator(parts: seq<string>, sep: string)
    requires |parts| >= 2 && sep != ""
    ensures sep[0] in Join(parts, sep) && Join(parts, sep) != ""
  {
    assert Join(parts, sep)[|parts[0]|] == sep[0];
  }

  /** An outline number's depth is its level: n1.n2. ... .nk is level k - 1. */
  lemma OutlineLevel(ns: seq<nat>)
    requires |ns| >= 2
    ensures ReadLevel(Join(Numerals(ns), ".")) == Level(|ns| - 1)
  {
    var parts := Numerals(ns);
    forall i | 0 <= i < |parts| ensures parts[i] != "" && AllDigits(parts[i]) && '.' !in parts[i] {
      DigitsAreTrimmed(parts[i]);
    }
    JoinHasSeparator(parts, ".");
    SplitJoin(parts, '.');
    NonBlankOfNumerals(parts);
    forall i | 0 <= i < |parts| ensures Strip(parts[i]) == parts[i] {
      DigitsAreTrimmed(parts[i]);
    }
  }

  /** Every part blank: nothing but dots and white space. */
  ghost predicate OnlyDots(text: string) {
    '.' in text && forall c :: c in text ==> c == '.' || IsSpace(c)
  }

  lemma StripBlank(s: string)
    ensures Strip(s) == "" <==> Blank(s)
  {
    StripShape(s);
    var a, b :| s == a + Strip(s) + b && Blank(a) && Blank(b);
    assert Strip(s) != "" ==> Strip(s)[0] == s[|a|];
  }

  lemma {:induction false} NonBlankPartsEmpty(parts: seq<string>)
    ensures NonBlankParts(parts) == [] <==> forall i :: 0 <= i < |parts| ==> Blank(parts[i])
    decreases |parts|
  {
    if parts != [] {
      StripBlank(parts[0]);
      NonBlankPartsEmpty(parts[1..]);
      if forall i :: 0 <= i < |parts[1..]| ==> Blank(parts[1..][i]) {
        assert forall i :: 1 <= i < |parts| ==> parts[i] == parts[1..][i - 1];
      }
      if forall i :: 0 <= i < |parts| ==> Blank(parts[i]) {
        assert forall i :: 0 <= i < |parts[1..]| ==> parts[1..][i] == parts[i + 1];
      }
    }
  }

  lemma {:induction false} BlankParts(s: string)
    ensures (forall i :: 0 <= i < |Split(s, '.')| ==> Blank(Split(s, '.')[i]))
       <==> forall k :: 0 <= k < |s| ==> s[k] == '.' || IsSpace(s[k])
    decreases |s|
  {
    if s != "" {
      BlankParts(s[1..]);
      var rest, parts := Split(s[1..], '.'), Split(s, '.');
      assert (forall k :: 0 <= k < |s| ==> s[k] == '.' || IsSpace(s[k]))
        <==> (s[0] == '.' || IsSpace(s[0])) && forall k :: 0 <= k < |s[1..]| ==> s[1..][k] == '.' || IsSpace(s[1..][k]) by {
        assert forall k :: 1 <= k < |s| ==> s[k] == s[1..][k - 1];
      }
      if s[0] == '.' {
        assert forall i :: 1 <= i < |parts| ==> parts[i] == rest[i - 1];
        assert forall i :: 0 <= i < |rest| ==> rest[i] == parts[i + 1];
      } else {
        assert parts[0] == [s[0]] + rest[0];
        assert Blank(parts[0]) <==> IsSpace(s[0]) && Blank(rest[0]) by {
          assert parts[0][0] == s[0];
          assert forall k :: 0 <= k < |rest[0]| ==> parts[0][k + 1] == rest[0][k];
          assert forall k :: 1 <= k < |parts[0]| ==> parts[0][k] == rest[0][k - 1];
        }
        assert forall i :: 1 <= i < |parts| ==> parts[i] == rest[i];
      }
    }
  }

  /** The level read is negative exactly for a cell of dots; it is then -1. */
  lemma NegativeLevelIsDots(text: string)
    ensures ReadLevel(text).Level? && ReadLevel(text).n < 0 <==> OnlyDots(text)
    ensures ReadLevel(text).Level? ==> ReadLevel(text).n >= -1
  {
    if '.' in text {
      var parts := Split(text, '.');
      NonBlankPartsEmpty(parts);
      BlankParts(text);
      assert (forall c :: c in text ==> c == '.' || IsSpace(c))
        <==> forall k :: 0 <= k < |text| ==> text[k] == '.' || IsSpace(text[k]);
    }
  }

  // ---- _build --------------------------------------------------------------------

  datatype Target = LevelColumn | QuantityColumn | Ignored | ComplianceColumn | TextColumn(attr: Attr)

  type Columns = seq<(string, Target)>

  const CANONICAL_COLUMNS: Columns := [
    ("level", LevelColumn),
    ("part_number", TextColumn(ModelNumber)),
    ("description", TextColumn(ProductDetails)),
    ("quantity", QuantityColumn),
    ("manufacturer", TextColumn(ManufacturerName)),
    ("mpn", TextColumn(ModelNumber)),
    ("supplier", TextColumn(ComponentSupplierInfo)),
    ("unit_cost", Ignored),
    ("name", TextColumn(ProductName)),
    ("version", TextColumn(ProductVersion)),
    ("serial_number", TextColumn(SerialNumber)),
    ("manufacturer_location", TextColumn(ManufacturerLocation)),
    ("supplier_location", TextColumn(ComponentSupplierLocation)),
    ("product_supplier", TextColumn(SupplierInfo)),
    ("product_supplier_location", TextColumn(SupplierLocation)),
    ("firmware_version", TextColumn(FirmwareVersion)),
    ("origin", TextColumn(Origin)),
    ("criticality", TextColumn(Criticality)),
    ("technology_node", TextColumn(TechnologyNode)),
    ("compliance", ComplianceColumn),
    ("power_supply", TextColumn(PowerSupply)),
    ("license", TextColumn(LicenseInfo)),
    ("test_result", TextColumn(TestResult)),
    ("technical_specification", TextColumn(TechnicalSpecification)),
    ("manufacturing_date", TextColumn(ManufacturingDate)),
    ("warranty", TextColumn(WarrantyAmc))
  ]

  function CellOf(values: Values, column: string): string {
    if column in values then Strip(values[column]) else ""
  }

  /** The text an attribute takes: the first column mapped to it, in table order, that is not blank. */
  function FirstFilled(columns: Columns, values: Values, a: Attr): string {
    if columns == [] then ""
    else if columns[0].1 == TextColumn(a) && CellOf(values, columns[0].0) != "" then CellOf(values, columns[0].0)
    else FirstFilled(columns[1..], values, a)
  }

  /** Column i of the table supplies attribute a: it is mapped to it, filled, and none before it is both. */
  ghost predicate Supplies(columns: Columns, values: Values, a: Attr, i: nat) {
    && i < |columns| && columns[i].1 == TextColumn(a) && CellOf(values, columns[i].0) != ""
    && forall j :: 0 <= j < i ==> !(columns[j].1 == TextColumn(a) && CellOf(values, columns[j].0) != "")
  }

  /** The order of the table decides, whatever the order of the columns in the file. */
  lemma {:induction false} TableOrderDecides(columns: Columns, values: Values, a: Attr, i: nat)
    requires Supplies(columns, values, a, i)
    ensures FirstFilled(columns, values, a) == CellOf(values, columns[i].0)
    decreases i
  {
    if i > 0 {
      assert forall j :: 0 <= j < i - 1 ==> columns[1..][j] == columns[j + 1];
      assert !(columns[0].1 == TextColumn(a) && CellOf(values, columns[0].0) != "");
      TableOrderDecides(columns[1..], values, a, i - 1);
    }
  }

  /** A filled part_number always stands before a filled mpn. */
  lemma PartNumberBeatsMpn(values: Values)
    requires CellOf(values, "part_number") != ""
    ensures FirstFilled(CANONICAL_COLUMNS, values, ModelNumber) == CellOf(values, "part_number")
  {
    assert CANONICAL_COLUMNS[0].1 == LevelColumn && CANONICAL_COLUMNS[1] == ("part_number", TextColumn(ModelNumber));
    assert Supplies(CANONICAL_COLUMNS, values, ModelNumber, 1);
    TableOrderDecides(CANONICAL_COLUMNS, values, ModelNumber, 1);
  }

  /** Of the two columns for the model number the later one counts only if the earlier is blank. */
  lemma ModelNumberIs(values: Values)
    requires CellOf(values, "part_number") != "" || CellOf(values, "mpn") != ""
    ensures FirstFilled(CANONICAL_COLUMNS, values, ModelNumber)
         == if CellOf(values, "part_number") != "" then CellOf(values, "part_number") else CellOf(values, "mpn")
  {
    if CellOf(values, "part_number") != "" {
      PartNumberBeatsMpn(values);
    } else {
      assert CANONICAL_COLUMNS[0].1 == LevelColumn && CANONICAL_COLUMNS[1].0 == "part_number";
      assert CANONICAL_COLUMNS[2].1 == TextColumn(ProductDetails) && CANONICAL_COLUMNS[3].1 == QuantityColumn;
      assert CANONICAL_COLUMNS[4].1 == TextColumn(ManufacturerName) && CANONICAL_COLUMNS[5] == ("mpn", TextColumn(ModelNumber));
      assert Supplies(CANONICAL_COLUMNS, values, ModelNumber, 5);
      TableOrderDecides(CANONICAL_COLUMNS, values, ModelNumber, 5);
    }
  }

  /** Cell i of a row is one of the two the model number can come from, and is filled. */
  ghost predicate SuppliesModel(raw: RawRow, mapping: Mapping, i: nat)
    requires i < |raw|
  {
    var c := ColumnOf(mapping, raw[i].0);
    && (c == Some("part_number") || c == Some("mpn"))
    && FirstCell(raw, mapping, c.value) == Some(i) && Strip(CellText(raw[i].1)) != ""
  }

  ghost predicate SuppliesModelFirst(raw: RawRow, mapping: Mapping, i: nat) {
    i < |raw| && SuppliesModel(raw, mapping, i) && forall j :: 0 <= j < i ==> !SuppliesModel(raw, mapping, j)
  }

  ghost predicate StandsBefore(raw: RawRow, mapping: Mapping, a: string, b: string) {
    var i, j := FirstCell(raw, mapping, a), FirstCell(raw, mapping, b);
    i.Some? && j.Some? && i.value < j.value
  }

  /** The column that the file supplies first wins exactly when only one of the two is filled,
      part_number stands first in the file, or both say the same. */
  lemma FileOrderWinsExactly(raw: RawRow, mapping: Mapping, i: nat)
    requires SuppliesModelFirst(raw, mapping, i)
    ensures
      var values := CanonicalValues(raw, mapping);
      var part, mpn := CellOf(values, "part_number"), CellOf(values, "mpn");
      FirstFilled(CANONICAL_COLUMNS, values, ModelNumber) == Strip(CellText(raw[i].1))
      <==> part == "" || mpn == "" || part == mpn || StandsBefore(raw, mapping, "part_number", "mpn")
  {
    var values := CanonicalValues(raw, mapping);
    CanonicalIsFirstMapped(raw, mapping);
    var c := ColumnOf(mapping, raw[i].0).value;
    assert CellOf(values, c) == Strip(CellText(raw[i].1));
    ModelNumberIs(values);
    hide FirstFilled, CanonicalValues;
    var part, mpn := FirstCell(raw, mapping, "part_number"), FirstCell(raw, mapping, "mpn");
    FirstCellIsFirst(raw, mapping, "part_number");
    FirstCellIsFirst(raw, mapping, "mpn");
    assert part.Some? ==> CellOf(values, "part_number") == Strip(CellText(raw[part.value].1));
    assert mpn.Some? ==> CellOf(values, "mpn") == Strip(CellText(raw[mpn.value].1));
    assert part.None? ==> CellOf(values, "part_number") == "";
    assert mpn.None? ==> CellOf(values, "mpn") == "";
    assert part.Some? && CellOf(values, "part_number") != "" ==> SuppliesModel(raw, mapping, part.value);
    assert mpn.Some? && CellOf(values, "mpn") != "" ==> SuppliesModel(raw, mapping, mpn.value);
    assert part.Some? && mpn.Some? ==> part.value != mpn.value;
  }

  /** A file whose mpn column comes first, and whose part_number wins. */
  lemma FileOrderLoses()
    ensures
      var raw := [(Some("MPN"), Field("A")), (Some("Part"), Field("B"))];
      var mapping := map["MPN" := "mpn", "Part" := "part_number"];
      && SuppliesModelFirst(raw, mapping, 0)
      && FirstFilled(CANONICAL_COLUMNS, CanonicalValues(raw, mapping), ModelNumber) == "B"
  {
    var raw := [(Some("MPN"), Field("A")), (Some("Part"), Field("B"))];
    var mapping := map["MPN" := "mpn", "Part" := "part_number"];
    assert Strip("A") == "A" && Strip("B") == "B" by {
      StripOfTrimmed("A");
      StripOfTrimmed("B");
    }
    assert raw[..1] == [raw[0]] && raw[..1][..0] == [];
    assert |"mpn"| == 3 && |"part_number"| == 11;
    FirstCellIsFirst(raw, mapping, "mpn");
    CanonicalIsFirstMapped(raw, mapping);
    FirstCellIsFirst(raw, mapping, "part_number");
    assert ColumnOf(mapping, raw[0].0) == Some("mpn") && ColumnOf(mapping, raw[1].0) == Some("part_number");
    assert FirstCell(raw, mapping, "mpn") == Some(0);
    assert FirstCell(raw, mapping, "part_number") == Some(1);
    PartNumberBeatsMpn(CanonicalValues(raw, mapping));
  }

  function SemicolonsToCommas(s: string): (r: string)
    ensures |r| == |s|
  {
    seq(|s|, i requires 0 <= i < |s| => if s[i] == ';' then ',' else s[i])
  }

  function ComplianceItems(text: string): seq<string> {
    CleanList(Split(SemicolonsToCommas(text), ','))
  }

  function LastCompliance(columns: Columns, values: Values): seq<string> {
    if columns == [] then []
    else
      var (name, target) := columns[|columns| - 1];
      if target == ComplianceColumn && CellOf(values, name) != "" then ComplianceItems(CellOf(values, name))
      else LastCompliance(columns[..|columns| - 1], values)
  }

  /** What `int(float(text))` does: a number, ValueError, or OverflowError for an infinity. */
  datatype NumberRead = Whole(n: int) | NotNumeric | Infinite

  datatype Config = Config(columns: Columns, number: string -> NumberRead, maxRows: nat)

  function QuantityRead(cfg: Config, values: Values): (r: NumberRead)
    ensures r.Infinite? || (r.Whole? && r.n >= 1)
  {
    var text := CellOf(values, "quantity");
    if text == "" then Whole(1)
    else
      match cfg.number(text)
      case Whole(n) => Whole(if n < 1 then 1 else n)
      case NotNumeric => Whole(1)
      case Infinite => Infinite
  }

  function FallbackName(attrs: Attrs, row: nat): string {
    if Get(attrs, ModelNumber) != "" then Get(attrs, ModelNumber)
    else if Get(attrs, ProductDetails) != "" then Get(attrs, ProductDetails)
    else "unnamed component (row " + Decimal(row) + ")"
  }

  function ColumnAttrs(columns: Columns, values: Values): Attrs {
    map a: Attr | FirstFilled(columns, values, a) != "" :: FirstFilled(columns, values, a)
  }

  /** The component one row describes, before it is placed in the tree. */
  function RowComponent(cfg: Config, values: Values, level: int, row: nat): (c: Component)
    requires QuantityRead(cfg, values).Whole?
    ensures c.level == level && c.parentLocalId == None
  {
    var attrs := ColumnAttrs(cfg.columns, values);
    Component(
      "row-" + Decimal(row), None, level, Some(row), QuantityRead(cfg, values).n,
      if Get(attrs, ProductName) == "" then Set(attrs, ProductName, FallbackName(attrs, row)) else attrs,
      LastCompliance(cfg.columns, values))
  }

  lemma FilledIsTrimmed(columns: Columns, values: Values, a: Attr)
    ensures Trimmed(FirstFilled(columns, values, a))
  {
    if columns != [] {
      if columns[0].0 in values {
        StripShape(values[columns[0].0]);
      }
      FilledIsTrimmed(columns[1..], values, a);
    }
  }

  /** Every component has a name, whatever the row holds. */
  lemma RowIsNamed(cfg: Config, values: Values, level: int, row: nat)
    requires QuantityRead(cfg, values).Whole?
    ensures Get(RowComponent(cfg, values, level, row).attrs, ProductName) != ""
    ensures RowComponent(cfg, values, level, row).quantity >= 1
    ensures Get(Clean(RowComponent(cfg, values, level, row)).attrs, ProductName)
         == Get(RowComponent(cfg, values, level, row).attrs, ProductName)
  {
    hide Decimal, FirstFilled;
    var c := RowComponent(cfg, values, level, row);
    var name := Get(c.attrs, ProductName);
    FilledIsTrimmed(cfg.columns, values, ProductName);
    FilledIsTrimmed(cfg.columns, values, ModelNumber);
    FilledIsTrimmed(cfg.columns, values, ProductDetails);
    var unnamed := "unnamed component (row " + Decimal(row) + ")";
    assert unnamed[0] == 'u' && unnamed[|unnamed| - 1] == ')';
    assert Trimmed(name);
    StripOfTrimmed(name);
    CleanAttrsIdempotent(c.attrs);
  }

  lemma {:induction false} NothingFilled(columns: Columns, values: Values, a: Attr)
    requires forall i :: 0 <= i < |columns| ==> columns[i].1 != TextColumn(a) || CellOf(values, columns[i].0) == ""
    ensures FirstFilled(columns, values, a) == ""
    decreases |columns|
  {
    if columns != [] {
      assert forall i :: 0 <= i < |columns[1..]| ==> columns[1..][i] == columns[i + 1];
      assert columns[0].1 != TextColumn(a) || CellOf(values, columns[0].0) == "";
      NothingFilled(columns[1..], values, a);
    }
  }

  /** The text for an attribute is that of the column that supplies it; without one it is empty. */
  lemma {:induction false} FilledExactly(columns: Columns, values: Values, a: Attr)
    ensures (exists i: nat :: Supplies(columns, values, a, i) && FirstFilled(columns, values, a) == CellOf(values, columns[i].0))
         || (FirstFilled(columns, values, a) == "" && forall i: nat :: !Supplies(columns, values, a, i))
  {
    if i: nat :| Supplies(columns, values, a, i) {
      TableOrderDecides(columns, values, a, i);
    } else {
      NobodySupplies(columns, values, a);
    }
  }

  /** What a row becomes, field by field. Its id and source row are its number; its texts are what the
      columns supply; a part without a name takes the model number, then the details, then its row
      number; and a quantity that is not there, no number or below one is one. */
  lemma {:induction false} RowSays(cfg: Config, values: Values, level: int, row: nat)
    requires QuantityRead(cfg, values).Whole?
    ensures
      var c := RowComponent(cfg, values, level, row);
      && c.localId == "row-" + Decimal(row) && c.sourceRow == Some(row) && c.level == level && c.parentLocalId == None
      && (forall a :: a != ProductName ==> Get(c.attrs, a) == FirstFilled(cfg.columns, values, a))
      && NamedBy(Get(c.attrs, ProductName), row, FirstFilled(cfg.columns, values, ProductName),
                 FirstFilled(cfg.columns, values, ModelNumber), FirstFilled(cfg.columns, values, ProductDetails))
    ensures
      var text := CellOf(values, "quantity");
      RowComponent(cfg, values, level, row).quantity ==
        if text != "" && cfg.number(text).Whole? && cfg.number(text).n > 1 then cfg.number(text).n else 1
  {
    hide FirstFilled, Decimal, CellOf;
  }

  predicate NamedBy(name: string, row: nat, own: string, model: string, details: string) {
    if own != "" then name == own
    else if model != "" then name == model
    else if details != "" then name == details
    else name == "unnamed component (row " + Decimal(row) + ")"
  }

  lemma {:induction false} NobodySupplies(columns: Columns, values: Values, a: Attr)
    requires forall i: nat :: !Supplies(columns, values, a, i)
    ensures FirstFilled(columns, values, a) == ""
  {
    forall i: nat | i < |columns| ensures columns[i].1 != TextColumn(a) || CellOf(values, columns[i].0) == "" {
      NotSuppliedAt(columns, values, a, i);
    }
    NothingFilled(columns, values, a);
  }

  lemma {:induction false} NotSuppliedAt(columns: Columns, values: Values, a: Attr, i: nat)
    requires i < |columns| && forall j: nat :: !Supplies(columns, values, a, j)
    ensures columns[i].1 != TextColumn(a) || CellOf(values, columns[i].0) == ""
    decreases i
  {
    forall j: nat | j < i ensures !(columns[j].1 == TextColumn(a) && CellOf(values, columns[j].0) != "") {
      NotSuppliedAt(columns, values, a, j);
    }
    assert !Supplies(columns, values, a, i);
  }

  method FillFromColumns(n: Node, columns: Columns, values: Values)
    requires n.attrs == map[] && n.compliance == []
    modifies n`attrs, n`compliance
    ensures n.attrs == ColumnAttrs(columns, values)
    ensures n.compliance == LastCompliance(columns, values)
  {
    for k := 0 to |columns|
      invariant forall a ::
          (if Get(n.attrs, a) != "" then Get(n.attrs, a) else FirstFilled(columns[k..], values, a))
          == FirstFilled(columns, values, a)
      invariant forall a :: a in n.attrs ==> n.attrs[a] != ""
      invariant n.compliance == LastCompliance(columns[..k], values)
    {
      assert columns[k..][1..] == columns[k + 1..];
      assert columns[..k + 1][..k] == columns[..k];
      var (name, target) := columns[k];
      var value := CellOf(values, name);
      if value != "" {
        match target {
          case ComplianceColumn =>
            n.compliance := ComplianceItems(value);
          case TextColumn(a) =>
            if Get(n.attrs, a) == "" {
              n.attrs := Set(n.attrs, a, value);
            }
          case _ =>
        }
      }
    }
    assert columns[..|columns|] == columns;
    SameReads(n.attrs, ColumnAttrs(columns, values));
  }

  /** `_build`: a new object holding exactly the component the row describes. An
      infinite quantity raises, which is reported as null. */
  method Build(cfg: Config, values: Values, level: int, row: nat) returns (n: Node?)
    ensures n == null <==> QuantityRead(cfg, values).Infinite?
    ensures n != null ==> fresh(n) && n.children == [] && n.Value() == RowComponent(cfg, values, level, row)
  {
    var node := new Node("row-" + Decimal(row), level, Some(row));
    FillFromColumns(node, cfg.columns, values);
    var quantityText := CellOf(values, "quantity");
    if quantityText != "" {
      match cfg.number(quantityText) {
        case Whole(q) => node.quantity := if q < 1 then 1 else q;
        case NotNumeric => node.quantity := 1;
        case Infinite => return null;
      }
    }
    if Get(node.attrs, ProductName) == "" {
      node.attrs := Set(node.attrs, ProductName, FallbackName(node.attrs, row));
    }
    n := node;
  }
}
