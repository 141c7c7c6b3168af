/** When the list of frontend/src/lib/auth.ts: `membershipsFrom` depends on how its claim is
    enumerated. `Object.entries` lists array-index keys first, ascending; all other keys may
    come in any order. */
module RoleOrder {
  import opened Optional
  import opened Text
  import opened Roles

  /** A key that is an array index: a canonical decimal numeral below 2^32 - 1. */
  function IndexOf(s: string): Option<nat> {
    if s != "" && AllDigits(s) && (s[0] != '0' || s == "0") && DecimalValue(s) < 0xFFFF_FFFF
    then Some(DecimalValue(s)) else None
  }

  /** Whether `Object.entries` can list key a before key b. */
  predicate MayPrecede(a: string, b: string) {
    match (IndexOf(a), IndexOf(b))
    case (Some(x), Some(y)) => x <= y
    case (Some(_), None) => true
    case (None, Some(_)) => false
    case (None, None) => true
  }

  /** Entries as they can be listed: every key once, indices first and ascending. */
  ghost predicate EntriesListed(entries: seq<(string, string)>) {
    forall i, j :: 0 <= i < j < |entries| ==> entries[i].0 != entries[j].0 && MayPrecede(entries[i].0, entries[j].0)
  }

  /** A claim as it can be enumerated. No known role is an index, and where an unknown one
      stands makes no difference. */
  ghost predicate Enumerated(roles: seq<(string, Orgs)>) {
    && (forall i, j :: 0 <= i < j < |roles| ==> roles[i].0 != roles[j].0)
    && (forall i :: 0 <= i < |roles| && roles[i].1.Orgs? ==> EntriesListed(roles[i].1.entries))
  }

  // ---- grants, by where they stand -----------------------------------------------------

  lemma {:induction false} OrgGrantsAt(role: string, entries: seq<(string, string)>)
    ensures |OrgGrants(role, entries)| == |entries|
    ensures forall i :: 0 <= i < |entries| ==> OrgGrants(role, entries)[i] == Membership(entries[i].0, entries[i].1, role)
    decreases |entries|
  {
    if entries != [] {
      OrgGrantsAt(role, entries[..|entries| - 1]);
    }
  }

  lemma {:induction false} GrantsLast(roles: seq<(string, Orgs)>, r: (string, Orgs))
    ensures Grants(roles + [r]) == Grants(roles) + RoleGrants(r.0, r.1)
  {
    hide RoleGrants;
    assert (roles + [r])[..|roles|] == roles;
  }

  lemma InitAndLast<T>(s: seq<T>)
    requires s != []
    ensures s == s[..|s| - 1] + [s[|s| - 1]]
  {
  }

  lemma Associative<T>(a: seq<T>, b: seq<T>, c: seq<T>)
    ensures a + b + c == a + (b + c)
  {
  }

  lemma {:induction false} GrantsConcat(a: seq<(string, Orgs)>, b: seq<(string, Orgs)>)
    ensures Grants(a + b) == Grants(a) + Grants(b)
    decreases |b|
  {
    if b == [] {
      assert a + b == a && Grants(b) == [];
      assert Grants(a) + [] == Grants(a);
    } else {
      hide Grants, RoleGrants;
      var init, last := b[..|b| - 1], b[|b| - 1];
      InitAndLast(b);
      Associative(a, init, [last]);
      GrantsLast(a + init, last);
      GrantsLast(init, last);
      GrantsConcat(a, init);
      Associative(Grants(a), Grants(init), RoleGrants(last.0, last.1));
    }
  }

  lemma {:induction false} GrantsSplit(roles: seq<(string, Orgs)>, k: nat)
    requires k < |roles|
    ensures Grants(roles) == Grants(roles[..k]) + RoleGrants(roles[k].0, roles[k].1) + Grants(roles[k + 1..])
  {
    assert roles == roles[..k] + [roles[k]] + roles[k + 1..];
    GrantsConcat(roles[..k] + [roles[k]], roles[k + 1..]);
    GrantsConcat(roles[..k], [roles[k]]);
    OneRole(roles[k]);
  }

  lemma {:induction false} OneRole(r: (string, Orgs))
    ensures Grants([r]) == RoleGrants(r.0, r.1)
  {
    assert [r][..0] == [];
  }

  /** A grant comes from entry e of role k. */
  predicate GrantedAt(roles: seq<(string, Orgs)>, m: Membership, k: nat, e: nat) {
    && k < |roles| && Rank(roles[k].0) >= 0 && roles[k].1.Orgs? && m.role == roles[k].0
    && e < |roles[k].1.entries| && roles[k].1.entries[e] == (m.org, m.domain)
  }

  lemma {:induction false} WhereGranted(roles: seq<(string, Orgs)>, m: Membership) returns (k: nat, e: nat)
    requires m in Grants(roles)
    ensures GrantedAt(roles, m, k, e)
    decreases |roles|
  {
    var n := |roles| - 1;
    if m in RoleGrants(roles[n].0, roles[n].1) {
      OrgGrantsAt(roles[n].0, roles[n].1.entries);
      k := n;
      e :| 0 <= e < |OrgGrants(roles[n].0, roles[n].1.entries)| && OrgGrants(roles[n].0, roles[n].1.entries)[e] == m;
    } else {
      k, e := WhereGranted(roles[..n], m);
    }
  }

  lemma {:induction false} GrantedIsGrant(roles: seq<(string, Orgs)>, m: Membership, k: nat, e: nat)
    requires GrantedAt(roles, m, k, e)
    ensures m in Grants(roles)
  {
    GrantsSplit(roles, k);
    OrgGrantsAt(roles[k].0, roles[k].1.entries);
    assert OrgGrants(roles[k].0, roles[k].1.entries)[e] == m;
    assert m in RoleGrants(roles[k].0, roles[k].1);
  }

  lemma {:induction false} EnumeratedGrantsOnce(roles: seq<(string, Orgs)>)
    requires Enumerated(roles)
    ensures OneGrantEach(Grants(roles))
  {
    forall g, h | g in Grants(roles) && h in Grants(roles) && g.org == h.org && g.role == h.role ensures g == h {
      var k, e := WhereGranted(roles, g);
      var l, f := WhereGranted(roles, h);
      assert k == l;
      assert e == f;
    }
  }

  // ---- who is seen first ---------------------------------------------------------------------

  /** Before every grant to y stands one to x. */
  ghost predicate Leads(grants: seq<Membership>, x: string, y: string) {
    forall j :: 0 <= j < |grants| && grants[j].org == y ==> HasBefore(grants, j, x)
  }

  ghost predicate HasBefore(grants: seq<Membership>, j: nat, x: string)
    requires j <= |grants|
  {
    exists i :: 0 <= i < j && grants[i].org == x
  }

  ghost predicate KeyBefore(keys: seq<string>, x: string, y: string) {
    exists i, j :: 0 <= i < j < |keys| && keys[i] == x && keys[j] == y
  }

  lemma {:induction false} LeadsKeys(grants: seq<Membership>, x: string, y: string)
    requires Leads(grants, x, y) && x != y && y in BestOf(grants).held
    ensures KeyBefore(BestOf(grants).keys, x, y)
    decreases |grants|
  {
    KeysAreOrgs(grants);
    var init, last := grants[..|grants| - 1], grants[|grants| - 1];
    KeysAreOrgs(init);
    var before := BestOf(init);
    if y in before.held {
      forall j | 0 <= j < |init| && init[j].org == y ensures HasBefore(init, j, x) {
        assert HasBefore(grants, j, x);
        var i :| 0 <= i < j && grants[i].org == x;
        assert init[i].org == x;
      }
      LeadsKeys(init, x, y);
      var i, j :| 0 <= i < j < |before.keys| && before.keys[i] == x && before.keys[j] == y;
      assert BestOf(grants).keys[i] == x && BestOf(grants).keys[j] == y;
    } else {
      assert last.org == y && HasBefore(grants, |grants| - 1, x);
      var i :| 0 <= i < |init| && grants[i].org == x;
      assert init[i] in init;
      HoldsHighest(init);
      assert x in before.keys;
      var k :| 0 <= k < |before.keys| && before.keys[k] == x;
      assert BestOf(grants).keys == before.keys + [y];
      assert (before.keys + [y])[k] == x && (before.keys + [y])[|before.keys|] == y;
    }
  }

  ghost predicate Before(ms: seq<Membership>, m: Membership, n: Membership) {
    exists i, j :: 0 <= i < j < |ms| && ms[i] == m && ms[j] == n
  }

  lemma NotBothBefore(ms: seq<Membership>, m: Membership, n: Membership)
    requires DistinctOrgs(ms)
    ensures !(Before(ms, m, n) && Before(ms, n, m))
  {
  }

  lemma {:induction false} InsertKeepsBefore(key: string -> int, s: seq<Membership>, m: Membership, n: Membership, x: Membership)
    requires Before(s, m, n)
    ensures Before(InsertBy(key, s, x), m, n)
    decreases |s|
  {
    var i, j :| 0 <= i < j < |s| && s[i] == m && s[j] == n;
    var r, k := InsertBy(key, s, x), |s| - 1;
    if key(s[k].domain) <= key(x.domain) {
      assert r[i] == m && r[j] == n;
    } else if j < k {
      assert s[..k][i] == m && s[..k][j] == n;
      InsertKeepsBefore(key, s[..k], m, n, x);
      var init := InsertBy(key, s[..k], x);
      var a, b :| 0 <= a < b < |init| && init[a] == m && init[b] == n;
      assert r[a] == m && r[b] == n;
    } else {
      InsertByElements(key, s[..k], x);
      assert s[..k][i] == m && m in InsertBy(key, s[..k], x);
      var init := InsertBy(key, s[..k], x);
      var a :| 0 <= a < |init| && init[a] == m;
      assert r[a] == m && r[|init|] == n;
    }
  }

  lemma {:induction false} InsertedAfter(key: string -> int, s: seq<Membership>, m: Membership, x: Membership)
    requires m in s && key(m.domain) <= key(x.domain)
    ensures Before(InsertBy(key, s, x), m, x)
    decreases |s|
  {
    var k, r := |s| - 1, InsertBy(key, s, x);
    if key(s[k].domain) <= key(x.domain) {
      var i :| 0 <= i < |s| && s[i] == m;
      assert r[i] == m && r[|s|] == x;
    } else {
      Snoc(s);
      InsertedAfter(key, s[..k], m, x);
      var init := InsertBy(key, s[..k], x);
      var a, b :| 0 <= a < b < |init| && init[a] == m && init[b] == x;
      assert r[a] == m && r[b] == x;
    }
  }

  /** The sort is stable. */
  lemma {:induction false} SortKeepsBefore(key: string -> int, ms: seq<Membership>, m: Membership, n: Membership)
    requires DistinctOrgs(ms) && Before(ms, m, n) && key(m.domain) <= key(n.domain)
    ensures Before(SortBy(key, ms), m, n)
    decreases |ms|
  {
    var i, j :| 0 <= i < j < |ms| && ms[i] == m && ms[j] == n;
    var init, last := ms[..|ms| - 1], ms[|ms| - 1];
    assert init[i] == m;
    if j == |ms| - 1 {
      SortByOrdered(key, init);
      InsertedAfter(key, SortBy(key, init), m, last);
    } else {
      assert init[j] == n;
      SortKeepsBefore(key, init, m, n);
      InsertKeepsBefore(key, SortBy(key, init), m, n, last);
    }
  }

  /** Of two that collate alike, the one seen first is listed first. */
  lemma {:induction false} SeenFirstListedFirst(key: string -> int, c: Claim, m: Membership, n: Membership)
    requires c.Claim? && m in Memberships(key, c) && n in Memberships(key, c) && m.org != n.org
    requires key(m.domain) <= key(n.domain) && Leads(Grants(c.roles), m.org, n.org)
    ensures Before(Memberships(key, c), m, n)
  {
    var b := BestOf(Grants(c.roles));
    ListedFacts(key, c);
    HoldsHighest(Grants(c.roles));
    KeysAreOrgs(Grants(c.roles));
    ValuesElements(b, Grants(c.roles));
    assert Held(b, m) && Held(b, n);
    LeadsKeys(Grants(c.roles), m.org, n.org);
    var i, j :| 0 <= i < j < |b.keys| && b.keys[i] == m.org && b.keys[j] == n.org;
    assert Values(b)[i] == m && Values(b)[j] == n;
    SortKeepsBefore(key, Values(b), m, n);
  }

  // ---- who can be seen first -------------------------------------------------------------------

  /** Some role is granted to x and not to y. */
  ghost predicate AloneIn(grants: seq<Membership>, x: string, y: string) {
    exists g :: g in grants && g.org == x && NobodyIn(grants, g.role, y)
  }

  ghost predicate NobodyIn(grants: seq<Membership>, role: string, y: string) {
    forall h :: h in grants && h.org == y ==> h.role != role
  }

  /** Some enumeration sees x before y: a role of x's own can come first, or x may be listed first. */
  ghost predicate CanLead(grants: seq<Membership>, x: string, y: string) {
    AloneIn(grants, x, y) || MayPrecede(x, y)
  }

  lemma {:induction false} LeadsConcat(a: seq<Membership>, b: seq<Membership>, x: string, y: string)
    requires Leads(a, x, y) && Leads(b, x, y)
    ensures Leads(a + b, x, y)
  {
    forall j | 0 <= j < |a + b| && (a + b)[j].org == y ensures HasBefore(a + b, j, x) {
      if j < |a| {
        assert HasBefore(a, j, x);
        var i :| 0 <= i < j && a[i].org == x;
        assert (a + b)[i].org == x;
      } else {
        assert b[j - |a|].org == y && HasBefore(b, j - |a|, x);
        var i :| 0 <= i < j - |a| && b[i].org == x;
        assert (a + b)[|a| + i].org == x;
      }
    }
  }

  /** Whoever is granted every role of x's and is always listed before x is always seen first. */
  lemma {:induction false} AlwaysSeenFirst(roles: seq<(string, Orgs)>, x: string, y: string)
    requires Enumerated(roles) && x != y && !MayPrecede(x, y)
    requires forall k :: 0 <= k < |roles| && Names(roles[k], x) ==> Names(roles[k], y)
    ensures Leads(Grants(roles), y, x)
    decreases |roles|
  {
    if roles != [] {
      var n := |roles| - 1;
      var (role, orgs) := roles[n];
      AlwaysSeenFirst(roles[..n], x, y);
      var block := RoleGrants(role, orgs);
      if block != [] {
        OrgGrantsAt(role, orgs.entries);
        forall j | 0 <= j < |block| && block[j].org == x ensures HasBefore(block, j, y) {
          assert orgs.entries[j].0 == x && Names(roles[n], x);
          var i :| 0 <= i < |orgs.entries| && orgs.entries[i].0 == y;
          assert i < j;
          assert block[i].org == y;
        }
      }
      LeadsConcat(Grants(roles[..n]), block, y, x);
    }
  }

  /** A known role lists this organisation. */
  ghost predicate Names(r: (string, Orgs), org: string) {
    Rank(r.0) >= 0 && r.1.Orgs? && exists e :: 0 <= e < |r.1.entries| && r.1.entries[e].0 == org
  }

  ghost predicate SameGrants(g: seq<Membership>, h: seq<Membership>) {
    forall m :: m in g <==> m in h
  }

  lemma {:induction false} CannotLead(c: seq<Membership>, roles: seq<(string, Orgs)>, x: string, y: string)
    requires Enumerated(roles) && SameGrants(c, Grants(roles)) && x != y && !CanLead(c, x, y)
    ensures Leads(Grants(roles), y, x)
  {
    forall k | 0 <= k < |roles| && Names(roles[k], x) ensures Names(roles[k], y) {
      var e :| 0 <= e < |roles[k].1.entries| && roles[k].1.entries[e].0 == x;
      var g := Membership(x, roles[k].1.entries[e].1, roles[k].0);
      GrantedIsGrant(roles, g, k, e);
      assert !NobodyIn(c, g.role, y);
      var h :| h in c && h.org == y && h.role == g.role;
      var l, f := WhereGranted(roles, h);
      assert l == k;
    }
    AlwaysSeenFirst(roles, x, y);
  }

  /** Role k first, its entries as given; the others as they were. */
  function Fronted(roles: seq<(string, Orgs)>, k: nat, entries: seq<(string, string)>): seq<(string, Orgs)>
    requires k < |roles|
  {
    [(roles[k].0, Orgs.Orgs(entries))] + (roles[..k] + roles[k + 1..])
  }

  lemma {:induction false} FrontedGrants(roles: seq<(string, Orgs)>, k: nat, entries: seq<(string, string)>)
    requires Enumerated(roles) && k < |roles| && roles[k].1.Orgs? && Rank(roles[k].0) >= 0
    requires EntriesListed(entries) && forall e :: e in entries <==> e in roles[k].1.entries
    ensures Enumerated(Fronted(roles, k, entries))
    ensures SameGrants(Grants(roles), Grants(Fronted(roles, k, entries)))
    ensures Grants(Fronted(roles, k, entries)) == OrgGrants(roles[k].0, entries) + Grants(roles[..k] + roles[k + 1..])
  {
    var r, rest := (roles[k].0, Orgs.Orgs(entries)), roles[..k] + roles[k + 1..];
    GrantsConcat([r], rest);
    OneRole(r);
    GrantsSplit(roles, k);
    GrantsConcat(roles[..k], roles[k + 1..]);
    SameOrgGrants(roles[k].0, entries, roles[k].1.entries);
    FrontedEnumerated(roles, k, entries);
  }

  lemma {:induction false} FrontedEnumerated(roles: seq<(string, Orgs)>, k: nat, entries: seq<(string, string)>)
    requires Enumerated(roles) && k < |roles| && EntriesListed(entries)
    ensures Enumerated(Fronted(roles, k, entries))
  {
    var d := Fronted(roles, k, entries);
    forall i | 1 <= i < |d| ensures d[i] == roles[if i <= k then i - 1 else i] {}
    forall i, j | 0 <= i < j < |d| ensures d[i].0 != d[j].0 {
      var a, b := if i == 0 then k else if i <= k then i - 1 else i, if j <= k then j - 1 else j;
      assert d[i].0 == roles[a].0 && d[j].0 == roles[b].0 && a != b;
    }
  }

  lemma {:induction false} SameOrgGrants(role: string, a: seq<(string, string)>, b: seq<(string, string)>)
    requires forall e :: e in a <==> e in b
    ensures SameGrants(OrgGrants(role, a), OrgGrants(role, b))
  {
    OrgGrantsAt(role, a);
    OrgGrantsAt(role, b);
    forall m ensures m in OrgGrants(role, a) <==> m in OrgGrants(role, b) {
      InOrgGrants(role, a, m);
      InOrgGrants(role, b, m);
    }
  }

  lemma {:induction false} InOrgGrants(role: string, entries: seq<(string, string)>, m: Membership)
    ensures m in OrgGrants(role, entries) <==> m.role == role && (m.org, m.domain) in entries
  {
    OrgGrantsAt(role, entries);
    if m.role == role && (m.org, m.domain) in entries {
      var i :| 0 <= i < |entries| && entries[i] == (m.org, m.domain);
      assert OrgGrants(role, entries)[i] == m;
    }
    if m in OrgGrants(role, entries) {
      var i :| 0 <= i < |OrgGrants(role, entries)| && OrgGrants(role, entries)[i] == m;
      assert entries[i] == (m.org, m.domain);
    }
  }

  /** The block in front decides, if x stands in it before every y. */
  lemma {:induction false} BlockLeads(block: seq<Membership>, rest: seq<Membership>, i: nat, x: string, y: string)
    requires i < |block| && block[i].org == x && forall j :: 0 <= j < |block| && block[j].org == y ==> i < j
    ensures Leads(block + rest, x, y)
  {
    var all := block + rest;
    forall j | 0 <= j < |all| && all[j].org == y ensures HasBefore(all, j, x) {
      if j < |block| {
        assert block[j].org == y;
      }
      assert all[i].org == x && i < j;
    }
  }

  function Swap(entries: seq<(string, string)>, i: nat, j: nat): (r: seq<(string, string)>)
    requires i < |entries| && j < |entries|
    ensures |r| == |entries|
  {
    entries[i := entries[j]][j := entries[i]]
  }

  /** Two keys that may each precede the other can change places. */
  lemma {:induction false} SwapListed(entries: seq<(string, string)>, i: nat, j: nat)
    requires EntriesListed(entries) && i < j < |entries| && MayPrecede(entries[j].0, entries[i].0)
    ensures EntriesListed(Swap(entries, i, j)) && forall e :: e in Swap(entries, i, j) <==> e in entries
  {
    var r := Swap(entries, i, j);
    assert IndexOf(entries[i].0) == IndexOf(entries[j].0);
    forall k ensures 0 <= k < |r| ==> r[k] == entries[if k == i then j else if k == j then i else k] {}
    forall e ensures e in r <==> e in entries {
      if e in entries {
        var k :| 0 <= k < |entries| && entries[k] == e;
        assert r[if k == i then j else if k == j then i else k] == e;
      }
    }
  }

  /** Whoever can be seen first is, in some enumeration of the same grants. */
  lemma {:induction false} SomeEnumerationLeads(roles: seq<(string, Orgs)>, x: string, y: string) returns (d: seq<(string, Orgs)>)
    requires Enumerated(roles) && x != y && CanLead(Grants(roles), x, y)
    requires exists g :: g in Grants(roles) && g.org == x
    ensures Enumerated(d) && SameGrants(Grants(roles), Grants(d)) && Leads(Grants(d), x, y)
  {
    var grants := Grants(roles);
    if AloneIn(grants, x, y) {
      var g :| g in grants && g.org == x && NobodyIn(grants, g.role, y);
      var k, e := WhereGranted(roles, g);
      var entries := roles[k].1.entries;
      d := Fronted(roles, k, entries);
      FrontedGrants(roles, k, entries);
      OrgGrantsAt(roles[k].0, entries);
      var block := OrgGrants(roles[k].0, entries);
      forall j | 0 <= j < |block| ensures block[j].org != y {
        GrantedIsGrant(roles, block[j], k, j);
      }
      BlockLeads(block, Grants(roles[..k] + roles[k + 1..]), e, x, y);
    } else {
      var g :| g in grants && g.org == x;
      var k, e := WhereGranted(roles, g);
      d := LeadInRole(roles, k, e, x, y);
    }
  }

  lemma {:induction false} LeadInRole(roles: seq<(string, Orgs)>, k: nat, e: nat, x: string, y: string) returns (d: seq<(string, Orgs)>)
    requires Enumerated(roles) && x != y && MayPrecede(x, y)
    requires k < |roles| && Rank(roles[k].0) >= 0 && roles[k].1.Orgs? && e < |roles[k].1.entries| && roles[k].1.entries[e].0 == x
    ensures Enumerated(d) && SameGrants(Grants(roles), Grants(d)) && Leads(Grants(d), x, y)
  {
    hide Grants, OrgGrants, SameGrants, Leads, MayPrecede, Fronted;
    var was := roles[k].1.entries;
    var entries, at := was, e;
    if f :| 0 <= f < e && was[f].0 == y {
      SwapListed(was, f, e);
      entries, at := Swap(was, f, e), f;
      assert forall j :: 0 <= j < |entries| && entries[j].0 == y ==> j == e;
    } else {
      assert forall j :: 0 <= j < |entries| && entries[j].0 == y ==> at < j;
    }
    d := Fronted(roles, k, entries);
    FrontedGrants(roles, k, entries);
    OrgGrantsAt(roles[k].0, entries);
    BlockLeads(OrgGrants(roles[k].0, entries), Grants(roles[..k] + roles[k + 1..]), at, x, y);
  }

  // ---- one list for all enumerations ------------------------------------------------------------

  /** Both lists put these two the same way round. */
  ghost predicate SameWay(s: seq<Membership>, t: seq<Membership>, m: Membership, n: Membership) {
    (Before(s, m, n) && Before(t, m, n)) || (Before(s, n, m) && Before(t, n, m))
  }

  ghost predicate TiesAgree(key: string -> int, s: seq<Membership>, t: seq<Membership>) {
    forall m, n :: m in s && n in s && m != n && key(m.domain) == key(n.domain) ==> SameWay(s, t, m, n)
  }

  lemma {:induction false} LastIsNotBefore(s: seq<Membership>, m: Membership)
    requires s != [] && DistinctOrgs(s)
    ensures !Before(s, s[|s| - 1], m)
  {
  }

  lemma {:induction false} InitKeepsBefore(s: seq<Membership>, m: Membership, n: Membership)
    requires s != [] && DistinctOrgs(s) && Before(s, m, n) && n != s[|s| - 1]
    ensures Before(s[..|s| - 1], m, n)
  {
    var i, j :| 0 <= i < j < |s| && s[i] == m && s[j] == n;
    assert s[..|s| - 1][i] == m && s[..|s| - 1][j] == n;
  }

  lemma {:induction false} SameGreatest(key: string -> int, s: seq<Membership>, t: seq<Membership>)
    requires s != [] && t != [] && Ordered(key, s) && Ordered(key, t) && DistinctOrgs(s) && DistinctOrgs(t)
    requires Same(s, t) && TiesAgree(key, s, t)
    ensures s[|s| - 1] == t[|t| - 1]
  {
    var a, b := s[|s| - 1], t[|t| - 1];
    assert a in t && b in s;
    assert a != b && key(a.domain) == key(b.domain) ==> SameWay(s, t, a, b);
    LastIsNotBefore(s, b);
    LastIsNotBefore(t, a);
  }

  lemma {:induction false} TiesUnique(key: string -> int, s: seq<Membership>, t: seq<Membership>)
    requires Ordered(key, s) && Ordered(key, t) && DistinctOrgs(s) && DistinctOrgs(t)
    requires Same(s, t) && TiesAgree(key, s, t)
    ensures s == t
    decreases |s|
  {
    SameEmpty(s, t);
    if s != [] {
      SameGreatest(key, s, t);
      var a, b := s[..|s| - 1], t[..|t| - 1];
      WithoutLast(s);
      WithoutLast(t);
      forall m ensures m in a <==> m in b {
        assert m in s <==> m in t;
      }
      forall m, n | m in a && n in a && m != n && key(m.domain) == key(n.domain) ensures SameWay(a, b, m, n) {
        assert SameWay(s, t, m, n);
        if Before(s, m, n) && Before(t, m, n) {
          InitKeepsBefore(s, m, n);
          InitKeepsBefore(t, m, n);
        } else {
          InitKeepsBefore(s, n, m);
          InitKeepsBefore(t, n, m);
        }
      }
      TiesUnique(key, a, b);
      assert s == a + [s[|s| - 1]] && t == b + [t[|t| - 1]];
    }
  }

  lemma {:induction false} WithoutLast(s: seq<Membership>)
    requires s != [] && DistinctOrgs(s)
    ensures forall m :: m in s[..|s| - 1] <==> m in s && m != s[|s| - 1]
  {
    Snoc(s);
  }

  /** No two of the organisations held collate alike and can each be seen before the other. */
  ghost predicate TiesFixed(key: string -> int, c: Claim)
    requires c.Claim?
  {
    forall m, n :: m in Memberships(key, c) && n in Memberships(key, c) && m.org != n.org && key(m.domain) == key(n.domain)
      ==> !(CanLead(Grants(c.roles), m.org, n.org) && CanLead(Grants(c.roles), n.org, m.org))
  }

  ghost predicate Enumerates(d: Claim, c: Claim) {
    d.Claim? && c.Claim? && Enumerated(d.roles) && SameGrants(Grants(c.roles), Grants(d.roles))
  }

  ghost predicate SameListAlways(key: string -> int, c: Claim) {
    forall d :: Enumerates(d, c) ==> Memberships(key, d) == Memberships(key, c)
  }

  lemma {:induction false} FixedTiesAgree(key: string -> int, c: Claim, d: Claim)
    requires Enumerates(c, c) && Enumerates(d, c) && TiesFixed(key, c)
    ensures Memberships(key, d) == Memberships(key, c)
  {
    EnumeratedGrantsOnce(c.roles);
    EnumerationOrderFree(key, c, d);
    ListedFacts(key, c);
    ListedFacts(key, d);
    var s, t := Memberships(key, c), Memberships(key, d);
    var g := Grants(c.roles);
    forall m, n | m in s && n in s && m != n && key(m.domain) == key(n.domain) ensures SameWay(s, t, m, n) {
      DifferentOrgs(s, m, n);
      if !CanLead(g, m.org, n.org) {
        CannotLead(g, c.roles, m.org, n.org);
        CannotLead(g, d.roles, m.org, n.org);
        SeenFirstListedFirst(key, c, n, m);
        SeenFirstListedFirst(key, d, n, m);
      } else {
        CannotLead(g, c.roles, n.org, m.org);
        CannotLead(g, d.roles, n.org, m.org);
        SeenFirstListedFirst(key, c, m, n);
        SeenFirstListedFirst(key, d, m, n);
      }
    }
    TiesUnique(key, s, t);
  }

  lemma {:induction false} DifferentOrgs(s: seq<Membership>, m: Membership, n: Membership)
    requires DistinctOrgs(s) && m in s && n in s && m != n
    ensures m.org != n.org
  {
  }

  /** The enumerations that put a free tie one way and the other. */
  lemma {:induction false} FreeTieShows(key: string -> int, c: Claim, m: Membership, n: Membership)
    requires Enumerates(c, c) && SameListAlways(key, c)
    requires m in Memberships(key, c) && n in Memberships(key, c) && m.org != n.org && key(m.domain) == key(n.domain)
    requires CanLead(Grants(c.roles), m.org, n.org)
    ensures Before(Memberships(key, c), m, n)
  {
    OneEntryPerOrganisation(key, c);
    assert IsHighest(m, Grants(c.roles));
    var roles := SomeEnumerationLeads(c.roles, m.org, n.org);
    var d := Claim.Claim(roles);
    assert Enumerates(d, c);
    SeenFirstListedFirst(key, d, m, n);
  }

  /** The list is the same for every enumeration of the claim exactly when no two organisations
      in it collate alike and can each be seen before the other. */
  lemma {:induction false} SameListExactly(key: string -> int, c: Claim)
    requires c.Claim? && Enumerated(c.roles)
    ensures SameListAlways(key, c) <==> TiesFixed(key, c)
  {
    if TiesFixed(key, c) {
      forall d | Enumerates(d, c) ensures Memberships(key, d) == Memberships(key, c) {
        FixedTiesAgree(key, c, d);
      }
    }
    if SameListAlways(key, c) {
      ListedFacts(key, c);
      forall m, n | m in Memberships(key, c) && n in Memberships(key, c) && m.org != n.org && key(m.domain) == key(n.domain)
        ensures !(CanLead(Grants(c.roles), m.org, n.org) && CanLead(Grants(c.roles), n.org, m.org))
      {
        NotBothBefore(Memberships(key, c), m, n);
        if CanLead(Grants(c.roles), m.org, n.org) {
          FreeTieShows(key, c, m, n);
        }
        if CanLead(Grants(c.roles), n.org, m.org) {
          FreeTieShows(key, c, n, m);
        }
      }
    }
  }

  /** Where no organisation id is an array index, that is when no two of those listed collate alike. */
  lemma {:induction false} SameListForPlainIds(key: string -> int, c: Claim)
    requires c.Claim? && Enumerated(c.roles) && forall g :: g in Grants(c.roles) ==> IndexOf(g.org).None?
    ensures SameListAlways(key, c) <==> DistinctKeys(key, Memberships(key, c))
  {
    SameListExactly(key, c);
    OneEntryPerOrganisation(key, c);
    var out := Memberships(key, c);
    forall m | m in out ensures IndexOf(m.org).None? {
      assert IsHighest(m, Grants(c.roles));
    }
    if TiesFixed(key, c) {
      forall m, n | m in out && n in out && key(m.domain) == key(n.domain) ensures m == n {
        if m != n {
          DifferentOrgs(out, m, n);
          assert CanLead(Grants(c.roles), m.org, n.org) && CanLead(Grants(c.roles), n.org, m.org);
        }
      }
    }
  }
}
