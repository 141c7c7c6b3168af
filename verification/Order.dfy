/** Lexicographic order on strings, and the sorted list of a set of strings. */
module Order {

  /** What a and b share up to k, where a ends or has the smaller character. */
  ghost predicate SplitsAt(a: string, b: string, k: nat) {
    && k <= |a| && k < |b| && (forall i :: 0 <= i < k ==> a[i] == b[i])
    && (k == |a| || a[k] < b[k])
  }

  /** One text stands before another exactly when, after all they share, it ends or has the smaller
      character. */
  lemma {:induction false} LessExactly(a: string, b: string)
    ensures Less(a, b) <==> exists k: nat :: SplitsAt(a, b, k)
    decreases |a|
  {
    if a != "" && b != "" && a[0] == b[0] {
      var s, t := a[1..], b[1..];
      LessExactly(s, t);
      if k: nat :| SplitsAt(s, t, k) {
        assert forall i :: 1 <= i < k + 1 ==> a[i] == s[i - 1] && b[i] == t[i - 1];
        assert SplitsAt(a, b, k + 1);
      }
      if k: nat :| SplitsAt(a, b, k) {
        assert k > 0;
        assert forall i :: 0 <= i < k - 1 ==> s[i] == a[i + 1] && t[i] == b[i + 1];
        assert SplitsAt(s, t, k - 1);
      }
    } else if Less(a, b) {
      assert SplitsAt(a, b, 0);
    }
  }

  predicate Less(a: string, b: string) {
    if b == "" then false
    else if a == "" then true
    else if a[0] != b[0] then a[0] < b[0]
    else Less(a[1..], b[1..])
  }

  lemma {:induction false} LessTotal(a: string, b: string)
    ensures Less(a, b) || Less(b, a) || a == b
    ensures !(Less(a, b) && Less(b, a)) && !Less(a, a)
    decreases |a|
  {
    if a != "" {
      LessTotal(a[1..], a[1..]);
    }
    if a != "" && b != "" && a[0] == b[0] {
      LessTotal(a[1..], b[1..]);
      assert a == [a[0]] + a[1..] && b == [b[0]] + b[1..];
    }
  }

  lemma {:induction false} LessTransitive(a: string, b: string, c: string)
    requires Less(a, b) && Less(b, c)
    ensures Less(a, c)
    decreases |a|
  {
    if a != "" && a[0] == b[0] == c[0] {
      LessTransitive(a[1..], b[1..], c[1..]);
    }
  }

  ghost predicate Sorted(s: seq<string>) {
    forall i, j :: 0 <= i < j < |s| ==> Less(s[i], s[j])
  }

  /** Add one string to a sorted list, unless it is there. */
  function Insert(s: seq<string>, x: string): seq<string> {
    if s == [] then [x]
    else if s[0] == x then s
    else if Less(x, s[0]) then [x] + s
    else [s[0]] + Insert(s[1..], x)
  }

  function Elements(s: seq<string>): set<string> {
    set x | x in s
  }

  lemma ConsElements(x: string, s: seq<string>)
    ensures Elements([x] + s) == {x} + Elements(s)
  {
  }

  lemma SortedTail(s: seq<string>)
    requires s != [] && Sorted(s)
    ensures Sorted(s[1..]) && s == [s[0]] + s[1..] && forall x :: x in s[1..] ==> Less(s[0], x)
  {
  }

  lemma SortedCons(x: string, s: seq<string>)
    requires Sorted(s) && forall y :: y in s ==> Less(x, y)
    ensures Sorted([x] + s)
  {
    forall i, j | 0 <= i < j < |[x] + s| ensures Less(([x] + s)[i], ([x] + s)[j]) {
      assert s[j - 1] in s;
    }
  }

  lemma {:induction false} InsertSorted(s: seq<string>, x: string)
    requires Sorted(s)
    ensures Sorted(Insert(s, x)) && Elements(Insert(s, x)) == Elements(s) + {x}
    decreases |s|
  {
    if s != [] && s[0] != x {
      hide Sorted, Elements;
      SortedTail(s);
      LessTotal(x, s[0]);
      if Less(x, s[0]) {
        BelowAll(x, s);
        SortedCons(x, s);
        ConsElements(x, s);
      } else {
        InsertSorted(s[1..], x);
        InElements(Insert(s[1..], x), s[1..], x);
        SortedCons(s[0], Insert(s[1..], x));
        ConsElements(s[0], s[1..]);
        ConsElements(s[0], Insert(s[1..], x));
      }
    }
  }

  lemma InElements(r: seq<string>, s: seq<string>, x: string)
    requires Elements(r) == Elements(s) + {x}
    ensures forall y :: y in r ==> y in s || y == x
  {
    forall y | y in r ensures y in s || y == x {
      assert y in Elements(r);
    }
  }

  lemma BelowAll(x: string, s: seq<string>)
    requires s != [] && Sorted(s) && Less(x, s[0])
    ensures forall y :: y in s ==> Less(x, y)
  {
    SortedTail(s);
    forall y | y in s ensures Less(x, y) {
      if y != s[0] {
        LessTransitive(x, s[0], y);
      }
    }
  }

  /** `sorted(set(xs))`. */
  function SortedSet(xs: seq<string>): seq<string> {
    if xs == [] then [] else Insert(SortedSet(xs[..|xs| - 1]), xs[|xs| - 1])
  }

  lemma {:induction false} SortedSetIsSorted(xs: seq<string>)
    ensures Sorted(SortedSet(xs)) && Elements(SortedSet(xs)) == Elements(xs)
    decreases |xs|
  {
    if xs != [] {
      SortedSetIsSorted(xs[..|xs| - 1]);
      InsertSorted(SortedSet(xs[..|xs| - 1]), xs[|xs| - 1]);
      assert xs == xs[..|xs| - 1] + [xs[|xs| - 1]];
    }
  }

  lemma FirstIsLeast(s: seq<string>, t: seq<string>)
    requires Sorted(s) && Sorted(t) && Elements(s) == Elements(t) && s != []
    ensures t != [] && s[0] == t[0]
  {
    assert s[0] in Elements(t);
    var i :| 0 <= i < |t| && t[i] == s[0];
    assert t[0] in Elements(s);
    var j :| 0 <= j < |s| && s[j] == t[0];
    LessTotal(s[0], t[0]);
  }

  lemma HasElement(t: seq<string>)
    ensures t != [] ==> Elements(t) != {}
  {
    if t != [] {
      assert t[0] in Elements(t);
    }
  }

  /** A set has one sorted list. */
  lemma {:induction false} SortedUnique(s: seq<string>, t: seq<string>)
    requires Sorted(s) && Sorted(t) && Elements(s) == Elements(t)
    ensures s == t
    decreases |s|
  {
    if s == [] {
      HasElement(t);
    } else {
      FirstIsLeast(s, t);
      NotInTail(s);
      NotInTail(t);
      assert Elements(s[1..]) == Elements(s) - {s[0]} && Elements(t[1..]) == Elements(t) - {t[0]};
      SortedUnique(s[1..], t[1..]);
      assert s == [s[0]] + s[1..] && t == [t[0]] + t[1..];
    }
  }

  lemma NotInTail(s: seq<string>)
    requires Sorted(s) && s != []
    ensures s[0] !in s[1..] && Elements(s[1..]) == Elements(s) - {s[0]}
  {
    forall i | 1 <= i < |s| ensures s[i] != s[0] {
      LessTotal(s[0], s[0]);
    }
    assert s == [s[0]] + s[1..];
  }

  /** The sorted list depends on which strings there are, not on their order or number. */
  lemma SortedSetOf(xs: seq<string>, ys: seq<string>)
    requires Elements(xs) == Elements(ys)
    ensures SortedSet(xs) == SortedSet(ys)
  {
    SortedSetIsSorted(xs);
    SortedSetIsSorted(ys);
    SortedUnique(SortedSet(xs), SortedSet(ys));
  }
}
