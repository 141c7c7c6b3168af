/** cmd/axebom/iam.go: `upsertEnvFile`, a key-value update of a text of `KEY=value` lines.
    Go may visit the keys of a map in another order each time. */
module EnvFile {
  import opened Text
  import opened Order

  type Updates = map<string, string>

  /** An order in which the keys may be visited. */
  ghost predicate IsOrder(order: seq<string>, updates: Updates) {
    && (forall i, j :: 0 <= i < j < |order| ==> order[i] != order[j])
    && Elements(order) == updates.Keys
  }

  predicate Matches(line: string, key: string) {
    |line| > |key| && line[..|key|] == key && line[|key|] == '='
  }

  function Entry(key: string, updates: Updates): string
    requires key in updates
  {
    key + "=" + updates[key]
  }

  /** A line is KEY's exactly when it starts with `KEY=`. */
  lemma MatchesExactly(line: string, key: string)
    ensures Matches(line, key) <==> key + "=" <= line
  {
    if key + "=" <= line {
      assert line[..|key|] == (key + "=")[..|key|] == key && line[|key|] == (key + "=")[|key|];
    }
    if Matches(line, key) {
      assert line[..|key| + 1] == key + "=";
    }
  }

  /** What the inner loop leaves of a line: the last matching key visited wins. */
  function Rewritten(line: string, updates: Updates, order: seq<string>): string {
    if order == [] then line
    else
      var last := order[|order| - 1];
      if last in updates && Matches(line, last) then Entry(last, updates)
      else Rewritten(line, updates, order[..|order| - 1])
  }

  ghost predicate Seen(lines: seq<string>, key: string) {
    exists i :: 0 <= i < |lines| && Matches(lines[i], key)
  }

  /** The missing keys, each once, sorted. */
  ghost predicate MissingSorted(missing: seq<string>, lines: seq<string>, updates: Updates) {
    Sorted(missing) && forall k :: k in missing <==> k in updates && !Seen(lines, k)
  }

  /** Lines as they are when the file is written, for these visiting orders. */
  ghost predicate Upserted(lines: seq<string>, updates: Updates, orders: nat -> seq<string>, out: seq<string>)
  {
    && |out| >= |lines|
    && (forall i :: 0 <= i < |lines| ==> RewrittenAt(lines, updates, orders, out, i))
    && exists missing :: MissingSorted(missing, lines, updates) && out[|lines|..] == Entries(missing, updates)
  }

  /** The text is those lines, joined. */
  ghost predicate WrittenFor(text: string, data: string, updates: Updates, orders: nat -> seq<string>) {
    exists out :: Upserted(Split(data, '\n'), updates, orders, out) && out != [] && text == Join(out, "\n")
  }

  ghost predicate RewrittenAt(lines: seq<string>, updates: Updates, orders: nat -> seq<string>, out: seq<string>, i: nat)
    requires i < |lines| <= |out|
  {
    out[i] == Rewritten(lines[i], updates, orders(i))
  }

  lemma OrderKeys(order: seq<string>, updates: Updates)
    requires IsOrder(order, updates)
    ensures forall k :: k in order <==> k in updates
  {
    assert forall k :: k in order <==> k in Elements(order);
  }

  function Entries(keys: seq<string>, updates: Updates): seq<string> {
    if keys == [] then []
    else Entries(keys[..|keys| - 1], updates) + if keys[|keys| - 1] in updates then [Entry(keys[|keys| - 1], updates)] else []
  }

  // ---- the two loops ------------------------------------------------------------------------

  /** The first loop, on the slice itself. */
  method RewriteLines(lines: array<string>, updates: Updates, orders: nat -> seq<string>) returns (seen: set<string>)
    requires forall i :: IsOrder(orders(i), updates)
    modifies lines
    ensures forall i :: 0 <= i < lines.Length ==> RewrittenAt(old(lines[..]), updates, orders, lines[..], i)
    ensures forall k :: k in seen <==> k in updates && Seen(old(lines[..]), k)
  {
    seen := {};
    ghost var was := lines[..];
    for i := 0 to lines.Length
      invariant |was| == lines.Length
      invariant forall j :: 0 <= j < i ==> RewrittenAt(was, updates, orders, lines[..], j)
      invariant forall j :: i <= j < lines.Length ==> lines[j] == was[j]
      invariant forall k :: k in seen <==> k in updates && Seen(was[..i], k)
    {
      ghost var before := lines[..];
      var line, matched := RewriteLine(lines[i], updates, orders(i));
      SeenNext(was, i);
      lines[i] := line;
      seen := seen + matched;
      forall j | 0 <= j < i ensures RewrittenAt(was, updates, orders, lines[..], j) {
        assert RewrittenAt(was, updates, orders, before, j);
      }
      assert RewrittenAt(was, updates, orders, lines[..], i);
    }
    assert was[..lines.Length] == was;
  }

  lemma SeenNext(lines: seq<string>, i: nat)
    requires i < |lines|
    ensures forall k :: Seen(lines[..i + 1], k) <==> Seen(lines[..i], k) || Matches(lines[i], k)
  {
    forall k ensures Seen(lines[..i + 1], k) <==> Seen(lines[..i], k) || Matches(lines[i], k) {
      if Seen(lines[..i], k) {
        var j :| 0 <= j < i && Matches(lines[..i][j], k);
        assert Matches(lines[..i + 1][j], k);
      }
      if Matches(lines[i], k) {
        assert Matches(lines[..i + 1][i], k);
      }
      if Seen(lines[..i + 1], k) {
        var j :| 0 <= j < i + 1 && Matches(lines[..i + 1][j], k);
        assert j < i ==> Matches(lines[..i][j], k);
      }
    }
  }

  /** The inner loop: every key is held against the line as it was read. */
  method RewriteLine(line: string, updates: Updates, order: seq<string>) returns (out: string, matched: set<string>)
    requires IsOrder(order, updates)
    ensures forall k :: k in order ==> k in updates
    ensures out == Rewritten(line, updates, order)
    ensures forall k :: k in matched <==> k in updates && Matches(line, k)
  {
    OrderKeys(order, updates);
    out, matched := line, {};
    for j := 0 to |order|
      invariant forall k :: k in order[..j] ==> k in updates
      invariant out == Rewritten(line, updates, order[..j])
      invariant forall k :: k in matched <==> k in order[..j] && Matches(line, k)
    {
      var key := order[j];
      assert order[..j + 1][..j] == order[..j] && order[..j + 1] == order[..j] + [key];
      if Matches(line, key) {
        out := Entry(key, updates);
        matched := matched + {key};
      }
    }
    assert order[..|order|] == order;
  }

  /** `upsertEnvFile` on the text of the file; a missing file reads as empty. */
  method Upsert(data: string, updates: Updates, orders: nat -> seq<string>, last: seq<string>) returns (text: string)
    requires (forall i :: IsOrder(orders(i), updates)) && IsOrder(last, updates)
    ensures WrittenFor(text, data, updates, orders)
  {
    var parts := Split(data, '\n');
    var lines := new string[|parts|](i requires 0 <= i < |parts| => parts[i]);
    assert lines[..] == parts;
    var seen := RewriteLines(lines, updates, orders);
    var missing := MissingKeys(seen, updates, last);
    MissingAre(missing, seen, parts, updates);
    var all := AppendMissing(lines[..], missing, updates);
    text := Join(all, "\n");
    UpsertedBy(parts, updates, orders, lines[..], missing, all);
  }

  lemma MissingAre(missing: seq<string>, seen: set<string>, lines: seq<string>, updates: Updates)
    requires Sorted(missing) && forall k :: k in missing <==> k in updates && k !in seen
    requires forall k :: k in seen <==> k in updates && Seen(lines, k)
    ensures MissingSorted(missing, lines, updates)
  {
  }

  method MissingKeys(seen: set<string>, updates: Updates, order: seq<string>) returns (missing: seq<string>)
    requires IsOrder(order, updates)
    ensures Sorted(missing) && forall k :: k in missing <==> k in updates && k !in seen
  {
    var found: seq<string> := [];
    OrderKeys(order, updates);
    for j := 0 to |order|
      invariant forall k :: k in found <==> k in order[..j] && k !in seen
    {
      assert order[..j + 1] == order[..j] + [order[j]];
      if order[j] !in seen {
        found := found + [order[j]];
      }
    }
    assert order[..|order|] == order;
    missing := SortedSet(found);
    SortedSetIsSorted(found);
    assert forall k :: k in missing <==> k in Elements(missing);
    assert forall k :: k in found <==> k in Elements(found);
  }

  method AppendMissing(lines: seq<string>, missing: seq<string>, updates: Updates) returns (all: seq<string>)
    requires forall k :: k in missing ==> k in updates
    ensures all == lines + Entries(missing, updates)
  {
    all := lines;
    for j := 0 to |missing|
      invariant all == lines + Entries(missing[..j], updates)
    {
      assert missing[..j + 1][..j] == missing[..j];
      assert missing[j] in missing;
      all := all + [missing[j] + "=" + updates[missing[j]]];
    }
    assert missing[..|missing|] == missing;
  }

  lemma UpsertedBy(parts: seq<string>, updates: Updates, orders: nat -> seq<string>, lines: seq<string>, missing: seq<string>, out: seq<string>)
    requires (forall i :: IsOrder(orders(i), updates)) && |lines| == |parts|
    requires forall i :: 0 <= i < |parts| ==> RewrittenAt(parts, updates, orders, lines, i)
    requires MissingSorted(missing, parts, updates) && out == lines + Entries(missing, updates)
    ensures Upserted(parts, updates, orders, out)
  {
    forall i | 0 <= i < |parts| ensures RewrittenAt(parts, updates, orders, out, i) {
      assert RewrittenAt(parts, updates, orders, lines, i);
      assert out[i] == lines[i];
    }
    assert out[|parts|..] == Entries(missing, updates);
  }

  // ---- which keys can share a line -----------------------------------------------------------

  predicate Bare(key: string) {
    '=' !in key
  }

  ghost predicate AllBare(updates: Updates) {
    forall k :: k in updates ==> Bare(k)
  }

  lemma OneBareKeyPerLine(line: string, j: string, k: string)
    requires Bare(j) && Bare(k) && Matches(line, j) && Matches(line, k)
    ensures j == k
  {
    assert forall i :: 0 <= i < |j| ==> line[..|j|][i] == j[i] && j[i] in j;
    assert forall i :: 0 <= i < |k| ==> line[..|k|][i] == k[i] && k[i] in k;
    assert |j| == |k|;
  }

  lemma {:induction false} RewrittenCases(line: string, updates: Updates, order: seq<string>)
    requires forall k :: k in order ==> k in updates
    ensures (exists k :: k in order && Matches(line, k) && Rewritten(line, updates, order) == Entry(k, updates))
         || ((forall k :: k in order ==> !Matches(line, k)) && Rewritten(line, updates, order) == line)
    decreases |order|
  {
    if order != [] {
      var last := order[|order| - 1];
      assert order == order[..|order| - 1] + [last];
      RewrittenCases(line, updates, order[..|order| - 1]);
    }
  }

  /** With this key visited last, it decides. */
  lemma LastDecides(line: string, updates: Updates, order: seq<string>, k: string)
    requires (forall j :: j in order ==> j in updates) && order != [] && order[|order| - 1] == k && Matches(line, k)
    ensures Rewritten(line, updates, order) == Entry(k, updates)
  {
  }

  /** Two keys that match one line ask for the same line. */
  ghost predicate NoConflict(line: string, updates: Updates) {
    forall j, k :: j in updates && k in updates && Matches(line, j) && Matches(line, k) ==> Entry(j, updates) == Entry(k, updates)
  }

  ghost predicate OrderFree(line: string, updates: Updates) {
    forall o, p :: IsOrder(o, updates) && IsOrder(p, updates) ==> SameRewriting(line, updates, o, p)
  }

  ghost predicate SameRewriting(line: string, updates: Updates, o: seq<string>, p: seq<string>)
  {
    Rewritten(line, updates, o) == Rewritten(line, updates, p)
  }

  /** A line comes out the same for every visiting order exactly when the keys that match it
      agree; keys without an equals sign always do. */
  lemma OrderFreeExactly(line: string, updates: Updates)
    ensures OrderFree(line, updates) <==> NoConflict(line, updates)
    ensures AllBare(updates) ==> OrderFree(line, updates)
  {
    if AllBare(updates) {
      forall j, k | j in updates && k in updates && Matches(line, j) && Matches(line, k) ensures j == k {
        OneBareKeyPerLine(line, j, k);
      }
    }
    if NoConflict(line, updates) {
      forall o, p | IsOrder(o, updates) && IsOrder(p, updates) ensures SameRewriting(line, updates, o, p) {
        AgreeingOrders(line, updates, o, p);
      }
    }
    if OrderFree(line, updates) {
      forall j, k | j in updates && k in updates && Matches(line, j) && Matches(line, k)
        ensures Entry(j, updates) == Entry(k, updates)
      {
        var o, p := OrderEndingWith(updates, j), OrderEndingWith(updates, k);
        OrderKeys(o, updates);
        OrderKeys(p, updates);
        assert SameRewriting(line, updates, o, p);
        LastDecides(line, updates, o, j);
        LastDecides(line, updates, p, k);
      }
    }
  }

  /** The keys `A` and `A=B` both match the line `A=B=x`, and the visiting order decides. */
  lemma KeysWithEqualsConflict()
    ensures !OrderFree("A=B=x", map["A" := "1", "A=B" := "2"])
  {
    var updates: Updates := map["A" := "1", "A=B" := "2"];
    OrderFreeExactly("A=B=x", updates);
    assert Matches("A=B=x", "A") && Matches("A=B=x", "A=B");
    assert |Entry("A", updates)| == 3 && |Entry("A=B", updates)| == 5;
  }

  lemma AgreeingOrders(line: string, updates: Updates, o: seq<string>, p: seq<string>)
    requires NoConflict(line, updates) && IsOrder(o, updates) && IsOrder(p, updates)
    ensures SameRewriting(line, updates, o, p)
  {
    OrderKeys(o, updates);
    OrderKeys(p, updates);
    RewrittenCases(line, updates, o);
    RewrittenCases(line, updates, p);
  }

  ghost function OrderEndingWith(updates: Updates, k: string): (order: seq<string>)
    requires k in updates
    ensures IsOrder(order, updates) && order != [] && order[|order| - 1] == k
  {
    var rest := Listed(updates.Keys - {k});
    assert Elements(rest + [k]) == Elements(rest) + {k};
    rest + [k]
  }

  ghost function Listed(s: set<string>): (order: seq<string>)
    ensures (forall i, j :: 0 <= i < j < |order| ==> order[i] != order[j]) && Elements(order) == s
    decreases |s|
  {
    if s == {} then []
    else
      var x :| x in s;
      var rest := Listed(s - {x});
      assert Elements(rest + [x]) == Elements(rest) + {x};
      assert x !in Elements(rest);
      rest + [x]
  }

  // ---- what the file says afterwards ---------------------------------------------------------

  ghost predicate OneLine(s: string) {
    '\n' !in s
  }

  ghost predicate Tidy(updates: Updates) {
    AllBare(updates) && forall k :: k in updates ==> OneLine(k) && OneLine(updates[k])
  }

  lemma EntryMatches(key: string, other: string, updates: Updates)
    requires key in updates && Bare(key) && Bare(other)
    ensures Matches(Entry(key, updates), other) <==> key == other
  {
    var line := Entry(key, updates);
    assert line[..|key|] == key && line[|key|] == '=';
    if Matches(line, other) {
      OneBareKeyPerLine(line, key, other);
    }
  }

  lemma {:induction false} EntriesAt(keys: seq<string>, updates: Updates)
    requires forall k :: k in keys ==> k in updates
    ensures |Entries(keys, updates)| == |keys|
    ensures forall i :: 0 <= i < |keys| ==> keys[i] in updates && Entries(keys, updates)[i] == Entry(keys[i], updates)
    decreases |keys|
  {
    if keys != [] {
      assert keys == keys[..|keys| - 1] + [keys[|keys| - 1]];
      EntriesAt(keys[..|keys| - 1], updates);
    }
  }

  lemma RewrittenLine(line: string, updates: Updates, order: seq<string>)
    requires AllBare(updates) && IsOrder(order, updates)
    ensures
      var out := Rewritten(line, updates, order);
      && (forall k :: k in updates ==> (Matches(out, k) <==> Matches(line, k)))
      && (forall k :: k in updates && Matches(line, k) ==> out == Entry(k, updates))
      && ((forall k :: k in updates ==> !Matches(line, k)) ==> out == line)
  {
    OrderKeys(order, updates);
    RewrittenCases(line, updates, order);
    forall j, k | j in updates && k in updates && Matches(line, j) && Matches(line, k) ensures j == k {
      OneBareKeyPerLine(line, j, k);
    }
    forall j, k | j in updates && k in updates ensures Matches(Entry(j, updates), k) <==> j == k {
      EntryMatches(j, k, updates);
    }
  }

  /** Behind the old lines stands one line for each missing key, in sorted order. */
  ghost predicate Appends(missing: seq<string>, lines: seq<string>, updates: Updates, out: seq<string>) {
    && MissingSorted(missing, lines, updates) && |missing| == |out| - |lines|
    && forall i :: 0 <= i < |missing| ==> missing[i] in updates && out[|lines| + i] == Entry(missing[i], updates)
  }

  /** After an upsert of bare keys: the old lines keep their places; a line that was some
      KEY's holds KEY's new value, any other is untouched; and behind them stands one line for
      each key that had none, in sorted order. */
  lemma UpsertedLines(lines: seq<string>, updates: Updates, orders: nat -> seq<string>, out: seq<string>)
    requires AllBare(updates) && (forall i :: IsOrder(orders(i), updates)) && Upserted(lines, updates, orders, out)
    ensures forall i, k :: 0 <= i < |lines| && k in updates && Matches(lines[i], k) ==> out[i] == k + "=" + updates[k]
    ensures forall i :: 0 <= i < |lines| && (forall k :: k in updates ==> !Matches(lines[i], k)) ==> out[i] == lines[i]
    ensures forall i, k :: 0 <= i < |out| && k in updates && Matches(out[i], k) ==> out[i] == k + "=" + updates[k]
    ensures forall k :: k in updates ==> Seen(out, k)
    ensures exists missing :: Appends(missing, lines, updates, out)
  {
    var missing :| MissingSorted(missing, lines, updates) && out[|lines|..] == Entries(missing, updates);
    EntriesAt(missing, updates);
    forall i | 0 <= i < |missing| ensures out[|lines| + i] == Entry(missing[i], updates) {
      assert out[|lines|..][i] == Entries(missing, updates)[i];
    }
    assert Appends(missing, lines, updates, out);
    forall i | 0 <= i < |lines|
      ensures forall k :: k in updates ==> (Matches(out[i], k) <==> Matches(lines[i], k))
      ensures forall k :: k in updates && Matches(lines[i], k) ==> out[i] == Entry(k, updates)
      ensures (forall k :: k in updates ==> !Matches(lines[i], k)) ==> out[i] == lines[i]
    {
      assert RewrittenAt(lines, updates, orders, out, i);
      RewrittenLine(lines[i], updates, orders(i));
    }
    forall i, k | |lines| <= i < |out| && k in updates && Matches(out[i], k) ensures out[i] == Entry(k, updates) {
      assert out[i] == out[|lines| + (i - |lines|)] == Entry(missing[i - |lines|], updates);
      EntryMatches(missing[i - |lines|], k, updates);
    }
    forall k | k in updates ensures Seen(out, k) {
      if Seen(lines, k) {
        var i :| 0 <= i < |lines| && Matches(lines[i], k);
        assert Matches(out[i], k);
      } else {
        var i :| 0 <= i < |missing| && missing[i] == k;
        EntryMatches(k, k, updates);
        assert Matches(out[|lines| + i], k);
      }
    }
  }

  /** Two runs with any visiting orders write the same lines. */
  lemma UpsertIsDeterministic(lines: seq<string>, updates: Updates, o: nat -> seq<string>, p: nat -> seq<string>, out: seq<string>, out': seq<string>)
    requires AllBare(updates) && (forall i :: IsOrder(o(i), updates)) && (forall i :: IsOrder(p(i), updates))
    requires Upserted(lines, updates, o, out) && Upserted(lines, updates, p, out')
    ensures out == out'
  {
    var missing :| MissingSorted(missing, lines, updates) && out[|lines|..] == Entries(missing, updates);
    var missing' :| MissingSorted(missing', lines, updates) && out'[|lines|..] == Entries(missing', updates);
    assert Elements(missing) == Elements(missing');
    SortedUnique(missing, missing');
    forall i | 0 <= i < |lines| ensures out[i] == out'[i] {
      OrderFreeExactly(lines[i], updates);
      assert RewrittenAt(lines, updates, o, out, i) && RewrittenAt(lines, updates, p, out', i);
      assert SameRewriting(lines[i], updates, o(i), p(i));
    }
    assert out == out[..|lines|] + out[|lines|..] && out' == out'[..|lines|] + out'[|lines|..];
    assert out[..|lines|] == out'[..|lines|];
  }

  /** Two runs on one text, with any visiting orders, write the same text. */
  lemma SameTextForEveryOrder(data: string, updates: Updates, o: nat -> seq<string>, p: nat -> seq<string>, text: string, text': string)
    requires AllBare(updates) && (forall i :: IsOrder(o(i), updates)) && (forall i :: IsOrder(p(i), updates))
    requires WrittenFor(text, data, updates, o) && WrittenFor(text', data, updates, p)
    ensures text == text'
  {
    var out :| Upserted(Split(data, '\n'), updates, o, out) && out != [] && text == Join(out, "\n");
    var out' :| Upserted(Split(data, '\n'), updates, p, out') && out' != [] && text' == Join(out', "\n");
    UpsertIsDeterministic(Split(data, '\n'), updates, o, p, out, out');
  }

  /** Running it again on the text it wrote changes nothing. */
  lemma SecondRunChangesNothing(data: string, updates: Updates, o: nat -> seq<string>, p: nat -> seq<string>, text: string, again: string)
    requires Tidy(updates) && (forall i :: IsOrder(o(i), updates)) && (forall i :: IsOrder(p(i), updates))
    requires WrittenFor(text, data, updates, o) && WrittenFor(again, text, updates, p)
    ensures again == text
  {
    var out :| Upserted(Split(data, '\n'), updates, o, out) && out != [] && text == Join(out, "\n");
    var out' :| Upserted(Split(text, '\n'), updates, p, out') && out' != [] && again == Join(out', "\n");
    SameLinesAgain(data, updates, o, out, p, out');
  }

  lemma SameLinesAgain(data: string, updates: Updates, o: nat -> seq<string>, out: seq<string>, p: nat -> seq<string>, again: seq<string>)
    requires Tidy(updates) && (forall i :: IsOrder(o(i), updates)) && (forall i :: IsOrder(p(i), updates))
    requires Upserted(Split(data, '\n'), updates, o, out)
    requires out != [] && Upserted(Split(Join(out, "\n"), '\n'), updates, p, again)
    ensures again == out
  {
    var lines := Split(data, '\n');
    JoinSplit(data, '\n');
    UpsertedLines(lines, updates, o, out);
    WrittenLinesAreLines(lines, updates, o, out);
    SplitJoin(out, '\n');
    assert Split(Join(out, "\n"), '\n') == out;
    UpsertedLines(out, updates, p, again);
    var missing :| Appends(missing, out, updates, again);
    NothingMissing(missing, out, updates);
    forall i | 0 <= i < |out| ensures again[i] == out[i] {
      if k :| k in updates && Matches(out[i], k) {
        assert out[i] == Entry(k, updates);
      }
    }
  }

  lemma NothingMissing(missing: seq<string>, lines: seq<string>, updates: Updates)
    requires MissingSorted(missing, lines, updates) && forall k :: k in updates ==> Seen(lines, k)
    ensures missing == []
  {
    assert forall k :: k in missing ==> false;
    HasElement(missing);
  }

  lemma EntryIsOneLine(k: string, updates: Updates)
    requires Tidy(updates) && k in updates
    ensures '\n' !in Entry(k, updates)
  {
    assert OneLine(k) && OneLine(updates[k]);
  }

  lemma WrittenLinesAreLines(lines: seq<string>, updates: Updates, orders: nat -> seq<string>, out: seq<string>)
    requires Tidy(updates) && (forall i :: IsOrder(orders(i), updates)) && Upserted(lines, updates, orders, out)
    requires forall i :: 0 <= i < |lines| ==> OneLine(lines[i])
    ensures forall i :: 0 <= i < |out| ==> '\n' !in out[i]
  {
    UpsertedLines(lines, updates, orders, out);
    hide Matches, Upserted, Entry, IsOrder, Seen;
    forall i | 0 <= i < |out| ensures '\n' !in out[i] {
      if k :| k in updates && Matches(out[i], k) {
        EntryIsOneLine(k, updates);
      } else if i < |lines| {
        UnmatchedLine(lines, updates, orders, out, i);
      } else {
        AppendedMatches(lines, updates, orders, out, i);
      }
    }
  }

  lemma UnmatchedLine(lines: seq<string>, updates: Updates, orders: nat -> seq<string>, out: seq<string>, i: nat)
    requires AllBare(updates) && (forall i :: IsOrder(orders(i), updates)) && Upserted(lines, updates, orders, out)
    requires i < |lines| && forall k :: k in updates ==> !Matches(out[i], k)
    ensures out[i] == lines[i]
  {
    assert RewrittenAt(lines, updates, orders, out, i);
    RewrittenLine(lines[i], updates, orders(i));
  }

  lemma AppendedMatches(lines: seq<string>, updates: Updates, orders: nat -> seq<string>, out: seq<string>, i: nat)
    requires AllBare(updates) && (forall i :: IsOrder(orders(i), updates)) && Upserted(lines, updates, orders, out)
    requires |lines| <= i < |out|
    ensures exists k :: k in updates && Matches(out[i], k)
  {
    UpsertedLines(lines, updates, orders, out);
    var missing :| Appends(missing, lines, updates, out);
    var k := missing[i - |lines|];
    assert out[i] == out[|lines| + (i - |lines|)] == Entry(k, updates);
    EntryMatches(k, k, updates);
  }

  /** A new file begins with an empty line: the split of an empty text is one empty line. */
  lemma NewFileHasEmptyFirstLine(updates: Updates, orders: nat -> seq<string>, out: seq<string>)
    requires AllBare(updates) && (forall i :: IsOrder(orders(i), updates)) && Upserted(Split("", '\n'), updates, orders, out)
    ensures out[0] == "" && (updates != map[] ==> |out| > 1)
  {
    UpsertedLines([""], updates, orders, out);
    if k :| k in updates {
      var i :| 0 <= i < |out| && Matches(out[i], k);
      assert out[0] == "" ==> i > 0;
    }
  }
}
