/** workers/qbom/metadata.py: `normalize_device` turns what was entered for a quantum device
    into a row with a value or an explicit gap for every profile field. */
module DeviceMetadata {
  import opened Text

  datatype Kind = Plain | RefList

  /** A profile field and the row column it goes to. */
  datatype Field = Field(id: string, column: string, kind: Kind)

  datatype Value = Null | Str(s: string) | Items(items: seq<string>) | Dict(size: nat) | Other(repr: string)

  /** The two fields that are derived from a scan. */
  const CRYPTO_FIELD := "certin.qbom.05.cryptographic_asset"
  const FINDINGS_FIELD := "certin.qbom.10.vulnerabilities"

  const NOT_PROVIDED := "not-provided"

  predicate Derived(f: Field) {
    f.id == CRYPTO_FIELD || f.id == FINDINGS_FIELD
  }

  /** `_is_substantive`: words that declare a gap are not values. */
  predicate Substantive(v: Value) {
    match v
    case Null => false
    case Str(s) => Lower(Strip(s)) !in {"", NOT_PROVIDED, "noassertion", "unknown", "n/a"}
    case Items(items) => items != []
    case Dict(size) => size > 0
    case Other(_) => true
  }

  const GAP_WORDS: seq<string> := ["", "not-provided", "noassertion", "unknown", "n/a"]

  /** An entered value is a gap exactly when there is none, or it is an empty collection, or a word
      for a gap, whatever its case and the blanks around it. */
  lemma GapsExactly(v: Value)
    ensures !Substantive(v) <==>
      || v == Null || v == Items([]) || v == Dict(0)
      || (v.Str? && exists w :: w in GAP_WORDS && SameButCase(Strip(v.s), w))
  {
    if v.Str? {
      forall w | w in GAP_WORDS ensures Lower(Strip(v.s)) == w <==> SameButCase(Strip(v.s), w) {
        assert Lower("") == "" && Lower("not-provided") == "not-provided" && Lower("noassertion") == "noassertion";
        assert Lower("unknown") == "unknown" && Lower("n/a") == "n/a";
        LowerSame(Strip(v.s), w);
      }
      hide Lower, Strip, SameButCase;
      assert Substantive(v) <==> Lower(Strip(v.s)) !in GAP_WORDS;
      assert GAP_WORDS[0] == "" && GAP_WORDS[1] == NOT_PROVIDED && GAP_WORDS[2] == "noassertion" && GAP_WORDS[3] == "unknown" && GAP_WORDS[4] == "n/a";
    }
  }

  /** What is entered, and what the scan derived. */
  datatype Input = Input(values: map<string, Value>, crypto: seq<string>, findings: seq<string>)

  function Entered(input: Input, column: string): Value {
    if column in input.values then input.values[column] else Null
  }

  function Refs(f: Field, input: Input): seq<string> {
    if f.id == CRYPTO_FIELD then input.crypto else input.findings
  }

  predicate Provided(f: Field, input: Input) {
    if Derived(f) then Refs(f, input) != [] else Substantive(Entered(input, f.column))
  }

  function Stored(f: Field, input: Input): Value {
    if Derived(f) then Items(Refs(f, input))
    else if Substantive(Entered(input, f.column)) then Entered(input, f.column)
    else if f.kind == RefList then Items([]) else Str(NOT_PROVIDED)
  }

  datatype Row = Row(values: map<string, Value>, status: map<string, bool>, gaps: seq<Field>)

  function Normalized(profile: seq<Field>, input: Input): Row {
    if profile == [] then Row(map[], map[], [])
    else
      var r := Normalized(profile[..|profile| - 1], input);
      var f := profile[|profile| - 1];
      Row(r.values[f.column := Stored(f, input)], r.status[f.id := Provided(f, input)],
          if Provided(f, input) then r.gaps else r.gaps + [f])
  }

  method NormalizeDevice(profile: seq<Field>, input: Input) returns (r: Row)
    ensures r == Normalized(profile, input)
  {
    var row: map<string, Value>, status: map<string, bool>, gaps: seq<Field> := map[], map[], [];
    for i := 0 to |profile|
      invariant Row(row, status, gaps) == Normalized(profile[..i], input)
    {
      assert profile[..i + 1][..i] == profile[..i];
      var f := profile[i];
      if Derived(f) {
        var refs := Refs(f, input);
        row, status := row[f.column := Items(refs)], status[f.id := refs != []];
        if refs == [] {
          gaps := gaps + [f];
        }
        continue;
      }
      var value := Entered(input, f.column);
      if Substantive(value) {
        row, status := row[f.column := value], status[f.id := true];
      } else {
        row := row[f.column := if f.kind == RefList then Items([]) else Str(NOT_PROVIDED)];
        status := status[f.id := false];
        gaps := gaps + [f];
      }
    }
    assert profile[..|profile|] == profile;
    r := Row(row, status, gaps);
  }

  ghost predicate Distinct(profile: seq<Field>) {
    forall i, j :: 0 <= i < j < |profile| ==> profile[i].id != profile[j].id && profile[i].column != profile[j].column
  }

  /** The fields without a value, in profile order. */
  function Gaps(profile: seq<Field>, input: Input): seq<Field> {
    if profile == [] then []
    else
      var last := profile[|profile| - 1];
      Gaps(profile[..|profile| - 1], input) + (if Provided(last, input) then [] else [last])
  }

  function CountProvided(profile: seq<Field>, input: Input): nat {
    if profile == [] then 0
    else CountProvided(profile[..|profile| - 1], input) + if Provided(profile[|profile| - 1], input) then 1 else 0
  }

  /** Every field has its column and its status; the gaps are the fields not provided, in
      profile order; and nothing is counted twice or left out. */
  lemma {:induction false} Partition(profile: seq<Field>, input: Input)
    requires Distinct(profile)
    ensures forall i :: 0 <= i < |profile| ==> ColumnHolds(Normalized(profile, input), profile[i], input)
    ensures Normalized(profile, input).gaps == Gaps(profile, input)
    ensures CountProvided(profile, input) + |Normalized(profile, input).gaps| == |profile|
  {
    ColumnsHold(profile, input);
    GapsListed(profile, input);
  }

  lemma {:induction false} GapsListed(profile: seq<Field>, input: Input)
    ensures Normalized(profile, input).gaps == Gaps(profile, input)
    ensures CountProvided(profile, input) + |Gaps(profile, input)| == |profile|
    decreases |profile|
  {
    if profile != [] {
      hide Stored, Provided;
      GapsListed(profile[..|profile| - 1], input);
    }
  }

  lemma {:induction false} ColumnsHold(profile: seq<Field>, input: Input)
    requires Distinct(profile)
    ensures forall i :: 0 <= i < |profile| ==> ColumnHolds(Normalized(profile, input), profile[i], input)
    decreases |profile|
  {
    if profile != [] {
      hide Stored, Provided;
      var n := |profile| - 1;
      ColumnsHold(profile[..n], input);
      forall i | 0 <= i < n ensures ColumnHolds(Normalized(profile, input), profile[i], input) {
        assert profile[..n][i] == profile[i];
        assert ColumnHolds(Normalized(profile[..n], input), profile[i], input);
      }
    }
  }

  ghost predicate ColumnHolds(r: Row, f: Field, input: Input) {
    && f.column in r.values && r.values[f.column] == Stored(f, input)
    && f.id in r.status && r.status[f.id] == Provided(f, input)
  }

  /** What the row holds for a field: the scan's references for the two derived ones, each its own;
      for any other what was entered, or a gap written out; and a field is listed as a gap exactly
      when its status says so. */
  lemma {:induction false} RowSays(profile: seq<Field>, input: Input, i: nat)
    requires Distinct(profile) && i < |profile|
    ensures
      var r, f := Normalized(profile, input), profile[i];
      && f.column in r.values && f.id in r.status
      && (r.values[f.column], r.status[f.id]) ==
           (if f.id == "certin.qbom.05.cryptographic_asset" then (Items(input.crypto), input.crypto != [])
            else if f.id == "certin.qbom.10.vulnerabilities" then (Items(input.findings), input.findings != [])
            else if f.column in input.values && Substantive(input.values[f.column]) then (input.values[f.column], true)
            else (if f.kind == RefList then Items([]) else Str("not-provided"), false))
      && (f in r.gaps <==> !r.status[f.id])
  {
    Partition(profile, input);
    InGaps(profile, input, profile[i]);
    assert ColumnHolds(Normalized(profile, input), profile[i], input);
  }

  lemma {:induction false} InGaps(profile: seq<Field>, input: Input, f: Field)
    ensures f in Gaps(profile, input) <==> f in profile && !Provided(f, input)
    decreases |profile|
  {
    if profile != [] {
      InGaps(profile[..|profile| - 1], input, f);
      assert profile == profile[..|profile| - 1] + [profile[|profile| - 1]];
      hide Provided;
    }
  }

  lemma GapTextIsAGap()
    ensures !Substantive(Str(NOT_PROVIDED))
  {
    assert Trimmed(NOT_PROVIDED);
    StripOfTrimmed(NOT_PROVIDED);
    assert Lower(NOT_PROVIDED) == NOT_PROVIDED;
  }

  /** What is stored for a field is what would be stored if it were entered. */
  lemma StoredAgain(f: Field, input: Input, again: Input)
    requires again.crypto == input.crypto && again.findings == input.findings
    requires Entered(again, f.column) == Stored(f, input)
    ensures Stored(f, again) == Stored(f, input) && Provided(f, again) == Provided(f, input)
  {
    GapTextIsAGap();
    hide Strip, Lower;
  }

  /** Feeding the row back with the same references gives the same row, statuses and gaps. */
  lemma {:induction false} NormalizedTwice(profile: seq<Field>, input: Input)
    requires Distinct(profile)
    ensures Normalized(profile, input.(values := Normalized(profile, input).values)) == Normalized(profile, input)
  {
    Partition(profile, input);
    var again := input.(values := Normalized(profile, input).values);
    forall i | 0 <= i < |profile|
      ensures Stored(profile[i], again) == Stored(profile[i], input) && Provided(profile[i], again) == Provided(profile[i], input)
    {
      assert ColumnHolds(Normalized(profile, input), profile[i], input);
      StoredAgain(profile[i], input, again);
    }
    SameNormalized(profile, input, again);
  }

  lemma {:induction false} SameNormalized(profile: seq<Field>, a: Input, b: Input)
    requires forall i :: 0 <= i < |profile| ==>
      Stored(profile[i], b) == Stored(profile[i], a) && Provided(profile[i], b) == Provided(profile[i], a)
    ensures Normalized(profile, b) == Normalized(profile, a)
    decreases |profile|
  {
    if profile != [] {
      hide Stored, Provided;
      assert forall i :: 0 <= i < |profile| - 1 ==> profile[..|profile| - 1][i] == profile[i];
      SameNormalized(profile[..|profile| - 1], a, b);
    }
  }
}
