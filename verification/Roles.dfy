/** frontend/src/lib/auth.ts: `membershipsFrom`, one membership per organisation from a claim
    that lists organisations under roles. */
module Roles {
  import opened Optional

  const PRECEDENCE: seq<string> := ["viewer", "analyst", "admin", "owner"]

  /** `indexOf`: -1 for a role nobody knows. */
  function Rank(role: string): (r: int)
    ensures -1 <= r < |PRECEDENCE|
    ensures r >= 0 ==> PRECEDENCE[r] == role
  {
    if role == "viewer" then 0
    else if role == "analyst" then 1
    else if role == "admin" then 2
    else if role == "owner" then 3
    else -1
  }

  /** Owner over admin over analyst over viewer over a role nobody knows. */
  lemma RanksAre(role: string)
    ensures -1 < Rank("viewer") < Rank("analyst") < Rank("admin") < Rank("owner")
    ensures Rank(role) == -1 <==> role !in ["viewer", "analyst", "admin", "owner"]
  {
    assert |"viewer"| == 6 && |"analyst"| == 7 && |"admin"| == 5 && |"owner"| == 5 && "admin"[0] != "owner"[0];
  }

  datatype Membership = Membership(org: string, domain: string, role: string)

  /** The claim as it is enumerated: roles, and under each the organisations with their domains. */
  datatype Orgs = NotAnObject | Orgs(entries: seq<(string, string)>)
  datatype Claim = NoClaim | Claim(roles: seq<(string, Orgs)>)

  // ---- the claim as a list of grants ----------------------------------------------------

  function OrgGrants(role: string, entries: seq<(string, string)>): seq<Membership> {
    if entries == [] then []
    else OrgGrants(role, entries[..|entries| - 1]) + [Membership(entries[|entries| - 1].0, entries[|entries| - 1].1, role)]
  }

  /** What one role contributes: nothing if nobody knows it or it holds no object. */
  function RoleGrants(role: string, orgs: Orgs): seq<Membership> {
    if Rank(role) < 0 || orgs.NotAnObject? then [] else OrgGrants(role, orgs.entries)
  }

  function Grants(roles: seq<(string, Orgs)>): seq<Membership> {
    if roles == [] then []
    else Grants(roles[..|roles| - 1]) + RoleGrants(roles[|roles| - 1].0, roles[|roles| - 1].1)
  }

  /** A Map keeps the order in which its keys were first set. */
  datatype Best = Best(keys: seq<string>, held: map<string, Membership>)

  function Hold(b: Best, m: Membership): Best {
    if m.org !in b.held then Best(b.keys + [m.org], b.held[m.org := m])
    else if Rank(m.role) > Rank(b.held[m.org].role) then b.(held := b.held[m.org := m])
    else b
  }

  function BestOf(grants: seq<Membership>): Best {
    if grants == [] then Best([], map[])
    else Hold(BestOf(grants[..|grants| - 1]), grants[|grants| - 1])
  }

  // ---- what is held --------------------------------------------------------------------------

  /** m is a grant to its organisation and no other grant to it ranks higher. */
  ghost predicate IsHighest(m: Membership, grants: seq<Membership>) {
    m in grants && forall g :: g in grants && g.org == m.org ==> Rank(g.role) <= Rank(m.role)
  }

  /** One membership for every organisation with a grant, and it is a highest one. */
  ghost predicate HoldsBest(b: Best, grants: seq<Membership>) {
    && (forall o :: o in b.held <==> exists g :: g in grants && g.org == o)
    && (forall o :: o in b.held ==> b.held[o].org == o && IsHighest(b.held[o], grants))
  }

  /** The keys are the organisations, each once. */
  ghost predicate KeysMatch(b: Best) {
    && (forall o :: o in b.keys <==> o in b.held)
    && (forall i, j :: 0 <= i < j < |b.keys| ==> b.keys[i] != b.keys[j])
  }

  lemma HoldOneMore(b: Best, grants: seq<Membership>, m: Membership)
    requires HoldsBest(b, grants)
    ensures HoldsBest(Hold(b, m), grants + [m])
  {
    var c, all := Hold(b, m), grants + [m];
    assert forall g :: g in all <==> g in grants || g == m;
    forall o ensures o in c.held <==> exists g :: g in all && g.org == o {
      if o == m.org {
        assert m in all;
      } else if o in b.held {
        assert b.held[o] in all;
      }
    }
    forall o | o in c.held ensures c.held[o].org == o && IsHighest(c.held[o], all) {
      if o in b.held {
        assert IsHighest(b.held[o], grants);
      }
    }
  }

  lemma {:induction false} HoldsHighest(grants: seq<Membership>)
    ensures HoldsBest(BestOf(grants), grants)
    decreases |grants|
  {
    if grants != [] {
      var init, last := grants[..|grants| - 1], grants[|grants| - 1];
      HoldsHighest(init);
      HoldOneMore(BestOf(init), init, last);
      assert grants == init + [last];
    }
  }

  lemma KeyOneMore(b: Best, m: Membership)
    requires KeysMatch(b)
    ensures KeysMatch(Hold(b, m))
  {
  }

  lemma {:induction false} KeysAreOrgs(grants: seq<Membership>)
    ensures KeysMatch(BestOf(grants))
    decreases |grants|
  {
    if grants != [] {
      KeysAreOrgs(grants[..|grants| - 1]);
      KeyOneMore(BestOf(grants[..|grants| - 1]), grants[|grants| - 1]);
    }
  }

  /** A JSON object has a key once: no role names an organisation twice. */
  ghost predicate OneGrantEach(grants: seq<Membership>) {
    forall g, h :: g in grants && h in grants && g.org == h.org && g.role == h.role ==> g == h
  }

  /** Which grants there are decides what is held; the order they are enumerated in does not. */
  lemma HeldIsOrderFree(g: seq<Membership>, h: seq<Membership>)
    requires forall m :: m in g <==> m in h
    requires OneGrantEach(g) && forall m :: m in g ==> Rank(m.role) >= 0
    ensures BestOf(g).held == BestOf(h).held
  {
    hide BestOf, HoldsBest;
    HoldsHighest(g);
    HoldsHighest(h);
    SameBest(BestOf(g), BestOf(h), g, h);
    SameBest(BestOf(h), BestOf(g), h, g);
    assert BestOf(g).held.Keys == BestOf(h).held.Keys;
  }

  lemma SameBest(b: Best, c: Best, g: seq<Membership>, h: seq<Membership>)
    requires HoldsBest(b, g) && HoldsBest(c, h) && (forall m :: m in g <==> m in h)
    requires OneGrantEach(g) && forall m :: m in g ==> Rank(m.role) >= 0
    ensures forall o :: o in b.held ==> o in c.held && b.held[o] == c.held[o]
  {
    forall o | o in b.held ensures o in c.held && b.held[o] == c.held[o] {
      var m := b.held[o];
      assert IsHighest(m, g) && m in h;
      assert o in c.held;
      var n := c.held[o];
      assert IsHighest(n, h) && n in g;
      assert Rank(m.role) == Rank(n.role);
    }
  }

  // ---- the list ------------------------------------------------------------------------------------

  /** A stable sort by collation key. */
  function InsertBy(key: string -> int, ms: seq<Membership>, m: Membership): seq<Membership> {
    if ms == [] then [m]
    else if key(ms[|ms| - 1].domain) <= key(m.domain) then ms + [m]
    else InsertBy(key, ms[..|ms| - 1], m) + [ms[|ms| - 1]]
  }

  function SortBy(key: string -> int, ms: seq<Membership>): seq<Membership> {
    if ms == [] then [] else InsertBy(key, SortBy(key, ms[..|ms| - 1]), ms[|ms| - 1])
  }

  ghost predicate Ordered(key: string -> int, ms: seq<Membership>) {
    forall i, j :: 0 <= i < j < |ms| ==> key(ms[i].domain) <= key(ms[j].domain)
  }

  ghost predicate DistinctOrgs(ms: seq<Membership>) {
    forall i, j :: 0 <= i < j < |ms| ==> ms[i].org != ms[j].org
  }

  lemma Snoc(ms: seq<Membership>)
    requires ms != []
    ensures forall x :: x in ms <==> x in ms[..|ms| - 1] || x == ms[|ms| - 1]
  {
    assert ms == ms[..|ms| - 1] + [ms[|ms| - 1]];
  }

  lemma {:induction false} InsertByElements(key: string -> int, ms: seq<Membership>, m: Membership)
    ensures forall x :: x in InsertBy(key, ms, m) <==> x in ms || x == m
    decreases |ms|
  {
    if ms != [] && key(ms[|ms| - 1].domain) > key(m.domain) {
      InsertByElements(key, ms[..|ms| - 1], m);
      Snoc(ms);
    }
  }

  /** A list put behind elements that all come first. */
  lemma SnocOrdered(key: string -> int, r: seq<Membership>, last: Membership)
    requires Ordered(key, r) && DistinctOrgs(r)
    requires forall x :: x in r ==> key(x.domain) <= key(last.domain) && x.org != last.org
    ensures Ordered(key, r + [last]) && DistinctOrgs(r + [last])
  {
    assert forall i :: 0 <= i < |r| ==> r[i] in r;
  }

  lemma {:induction false} InsertByOrdered(key: string -> int, ms: seq<Membership>, m: Membership)
    requires Ordered(key, ms) && DistinctOrgs(ms) && forall x :: x in ms ==> x.org != m.org
    ensures Ordered(key, InsertBy(key, ms, m)) && DistinctOrgs(InsertBy(key, ms, m))
    decreases |ms|
  {
    if ms != [] {
      var init, last := ms[..|ms| - 1], ms[|ms| - 1];
      Snoc(ms);
      if key(last.domain) > key(m.domain) {
        InsertByOrdered(key, init, m);
        InsertByElements(key, init, m);
        SnocOrdered(key, InsertBy(key, init, m), last);
      } else {
        SnocOrdered(key, ms, m);
      }
    }
  }

  lemma {:induction false} SortByOrdered(key: string -> int, ms: seq<Membership>)
    requires DistinctOrgs(ms)
    ensures Ordered(key, SortBy(key, ms)) && DistinctOrgs(SortBy(key, ms))
    ensures forall x :: x in SortBy(key, ms) <==> x in ms
    decreases |ms|
  {
    if ms != [] {
      var init, last := ms[..|ms| - 1], ms[|ms| - 1];
      SortByOrdered(key, init);
      Snoc(ms);
      InsertByElements(key, SortBy(key, init), last);
      InsertByOrdered(key, SortBy(key, init), last);
    }
  }

  ghost predicate DistinctKeys(key: string -> int, ms: seq<Membership>) {
    forall m, n :: m in ms && n in ms && key(m.domain) == key(n.domain) ==> m == n
  }

  ghost predicate Strict(key: string -> int, ms: seq<Membership>) {
    forall i, j :: 0 <= i < j < |ms| ==> key(ms[i].domain) < key(ms[j].domain)
  }

  lemma OrderedIsStrict(key: string -> int, s: seq<Membership>)
    requires Ordered(key, s) && DistinctOrgs(s) && DistinctKeys(key, s)
    ensures Strict(key, s)
  {
  }

  lemma StrictInit(key: string -> int, s: seq<Membership>)
    requires Strict(key, s) && s != []
    ensures forall m :: m in s[..|s| - 1] <==> m in s && m != s[|s| - 1]
  {
    Snoc(s);
  }

  ghost predicate Same(s: seq<Membership>, t: seq<Membership>) {
    forall m :: m in s <==> m in t
  }

  lemma SameLast(key: string -> int, s: seq<Membership>, t: seq<Membership>)
    requires Strict(key, s) && Strict(key, t) && s != [] && t != [] && Same(s, t)
    ensures s[|s| - 1] == t[|t| - 1]
  {
    assert s[|s| - 1] in t && t[|t| - 1] in s;
  }

  lemma SameInit(key: string -> int, s: seq<Membership>, t: seq<Membership>)
    requires Strict(key, s) && Strict(key, t) && s != [] && t != [] && Same(s, t) && s[|s| - 1] == t[|t| - 1]
    ensures Same(s[..|s| - 1], t[..|t| - 1])
  {
    StrictInit(key, s);
    StrictInit(key, t);
    hide Strict;
    var a, b := s[..|s| - 1], t[..|t| - 1];
    forall m ensures m in a <==> m in b {
      assert m in s <==> m in t;
    }
  }

  lemma SameEmpty(s: seq<Membership>, t: seq<Membership>)
    requires Same(s, t)
    ensures s == [] <==> t == []
  {
    if s != [] {
      assert s[0] in t;
    }
    if t != [] {
      assert t[0] in s;
    }
  }

  /** Strictly ordered lists of the same elements are the same. */
  lemma {:induction false} StrictUnique(key: string -> int, s: seq<Membership>, t: seq<Membership>)
    requires Strict(key, s) && Strict(key, t) && Same(s, t)
    ensures s == t
    decreases |s|
  {
    SameEmpty(s, t);
    if s != [] {
      SameLast(key, s, t);
      SameInit(key, s, t);
      StrictUnique(key, s[..|s| - 1], t[..|t| - 1]);
      assert s == s[..|s| - 1] + [s[|s| - 1]] && t == t[..|t| - 1] + [t[|t| - 1]];
    }
  }

  function Values(b: Best): seq<Membership>
    requires forall i :: 0 <= i < |b.keys| ==> b.keys[i] in b.held
  {
    seq(|b.keys|, i requires 0 <= i < |b.keys| => b.held[b.keys[i]])
  }

  /** The list `membershipsFrom` returns. */
  function Memberships(key: string -> int, claim: Claim): seq<Membership> {
    if claim.NoClaim? then []
    else
      KeysAreOrgs(Grants(claim.roles));
      SortBy(key, Values(BestOf(Grants(claim.roles))))
  }

  lemma {:induction false} GrantsKnown(roles: seq<(string, Orgs)>)
    ensures forall m :: m in Grants(roles) ==> Rank(m.role) >= 0
    decreases |roles|
  {
    if roles != [] {
      GrantsKnown(roles[..|roles| - 1]);
      if roles[|roles| - 1].1.Orgs? {
        OrgGrantsRole(roles[|roles| - 1].0, roles[|roles| - 1].1.entries);
      }
    }
  }

  lemma {:induction false} OrgGrantsRole(role: string, entries: seq<(string, string)>)
    ensures forall m :: m in OrgGrants(role, entries) ==> m.role == role
    decreases |entries|
  {
    if entries != [] {
      OrgGrantsRole(role, entries[..|entries| - 1]);
    }
  }

  predicate Held(b: Best, m: Membership) {
    m.org in b.held && b.held[m.org] == m
  }

  ghost predicate ListsHeld(out: seq<Membership>, b: Best) {
    forall m :: m in out <==> Held(b, m)
  }

  lemma ValuesElements(b: Best, grants: seq<Membership>)
    requires KeysMatch(b) && HoldsBest(b, grants)
    ensures ListsHeld(Values(b), b) && DistinctOrgs(Values(b))
  {
    var vs := Values(b);
    forall m ensures m in vs <==> Held(b, m) {
      if Held(b, m) {
        var i :| 0 <= i < |b.keys| && b.keys[i] == m.org;
        assert vs[i] == m;
      }
    }
  }

  lemma ListedFacts(key: string -> int, claim: Claim)
    requires claim.Claim?
    ensures Ordered(key, Memberships(key, claim)) && DistinctOrgs(Memberships(key, claim))
    ensures ListsHeld(Memberships(key, claim), BestOf(Grants(claim.roles)))
  {
    var b := BestOf(Grants(claim.roles));
    HoldsHighest(Grants(claim.roles));
    KeysAreOrgs(Grants(claim.roles));
    ValuesElements(b, Grants(claim.roles));
    hide Grants, BestOf, HoldsBest;
    SortByOrdered(key, Values(b));
  }

  /** One entry for every organisation with a known role, carrying its highest role and that
      grant's domain, ordered by domain. */
  lemma OneEntryPerOrganisation(key: string -> int, claim: Claim)
    requires claim.Claim?
    ensures Ordered(key, Memberships(key, claim)) && DistinctOrgs(Memberships(key, claim))
    ensures forall m :: m in Memberships(key, claim) ==> IsHighest(m, Grants(claim.roles))
    ensures forall g :: g in Grants(claim.roles) ==> Lists(Memberships(key, claim), g.org)
  {
    hide Memberships, Grants, BestOf, IsHighest, HoldsBest, Ordered, DistinctOrgs, Lists;
    HoldsHighest(Grants(claim.roles));
    ListedFacts(key, claim);
    ListsAll(Memberships(key, claim), BestOf(Grants(claim.roles)), Grants(claim.roles));
  }

  lemma ListsAll(out: seq<Membership>, b: Best, grants: seq<Membership>)
    requires HoldsBest(b, grants) && ListsHeld(out, b)
    ensures forall m :: m in out ==> IsHighest(m, grants)
    ensures forall g :: g in grants ==> Lists(out, g.org)
  {
    hide IsHighest;
    forall g | g in grants ensures Lists(out, g.org) {
      assert Held(b, b.held[g.org]);
    }
  }

  ghost predicate Lists(out: seq<Membership>, org: string) {
    exists m :: m in out && m.org == org
  }

  /** Two enumerations of the same grants hold the same; they list it in the same order when
      no two of the organisations held collate alike. */
  lemma {:induction false} EnumerationOrderFree(key: string -> int, c: Claim, d: Claim)
    requires c.Claim? && d.Claim? && OneGrantEach(Grants(c.roles))
    requires forall m :: m in Grants(c.roles) <==> m in Grants(d.roles)
    ensures forall m :: m in Memberships(key, c) <==> m in Memberships(key, d)
    ensures DistinctKeys(key, Memberships(key, c)) ==> Memberships(key, c) == Memberships(key, d)
  {
    GrantsKnown(c.roles);
    HeldIsOrderFree(Grants(c.roles), Grants(d.roles));
    ListedFacts(key, c);
    ListedFacts(key, d);
    hide Memberships, Grants, BestOf;
    SameListed(Memberships(key, c), Memberships(key, d), BestOf(Grants(c.roles)), BestOf(Grants(d.roles)));
    if DistinctKeys(key, Memberships(key, c)) {
      OrderedIsStrict(key, Memberships(key, c));
      assert DistinctKeys(key, Memberships(key, d));
      OrderedIsStrict(key, Memberships(key, d));
      StrictUnique(key, Memberships(key, c), Memberships(key, d));
    }
  }

  lemma SameListed(out: seq<Membership>, out': seq<Membership>, b: Best, c: Best)
    requires ListsHeld(out, b) && ListsHeld(out', c) && b.held == c.held
    ensures Same(out, out')
  {
    forall m ensures m in out <==> m in out' {
      assert Held(b, m) <==> Held(c, m);
    }
  }

  /** Two organisations with one domain come out in the order they are enumerated in. */
  lemma EqualDomainsFollowEnumeration()
    ensures
      var a, b := ("org-a", "acme.test"), ("org-b", "acme.test");
      var key := (s: string) => |s|;
      Memberships(key, Claim([("viewer", Orgs([a, b]))])) != Memberships(key, Claim([("viewer", Orgs([b, a]))]))
  {
    var a, b := ("org-a", "acme.test"), ("org-b", "acme.test");
    var key := (s: string) => |s|;
    TwoOrgs(key, a, b);
    TwoOrgs(key, b, a);
  }

  lemma {:induction false} TwoOrgs(key: string -> int, a: (string, string), b: (string, string))
    requires a.0 != b.0 && key(a.1) == key(b.1)
    ensures Memberships(key, Claim([("viewer", Orgs([a, b]))])) == [Membership(a.0, a.1, "viewer"), Membership(b.0, b.1, "viewer")]
  {
    var m, n := Membership(a.0, a.1, "viewer"), Membership(b.0, b.1, "viewer");
    TwoGrants(a, b);
    TwoBest(m, n);
    hide Grants, BestOf;
    assert SortBy(key, [m, n]) == [m, n] by {
      assert [m, n][..1] == [m] && [m][..0] == [];
      assert SortBy(key, [m]) == [m];
    }
    assert Values(BestOf([m, n])) == [m, n];
  }

  lemma {:induction false} TwoGrants(a: (string, string), b: (string, string))
    ensures Grants([("viewer", Orgs([a, b]))]) == [Membership(a.0, a.1, "viewer"), Membership(b.0, b.1, "viewer")]
  {
    var roles := [("viewer", Orgs([a, b]))];
    assert roles[..0] == [];
    assert [a, b][..1] == [a] && [a][..0] == [];
    assert OrgGrants("viewer", [a]) == [Membership(a.0, a.1, "viewer")];
  }

  lemma {:induction false} TwoBest(m: Membership, n: Membership)
    requires m.org != n.org
    ensures BestOf([m, n]) == Best([m.org, n.org], map[m.org := m, n.org := n])
  {
    assert [m, n][..1] == [m] && [m][..0] == [];
    assert BestOf([m]) == Best([m.org], map[m.org := m]);
  }

  // ---- the loops ----------------------------------------------------------------------------------

  method MembershipsFrom(key: string -> int, claim: Claim) returns (out: seq<Membership>)
    ensures out == Memberships(key, claim)
  {
    if claim.NoClaim? {
      return [];
    }
    var keys: seq<string>, held: map<string, Membership> := [], map[];
    for i := 0 to |claim.roles|
      invariant Best(keys, held) == BestOf(Grants(claim.roles[..i]))
    {
      assert claim.roles[..i + 1][..i] == claim.roles[..i];
      var (role, orgs) := claim.roles[i];
      ghost var before := Grants(claim.roles[..i]);
      if Rank(role) < 0 || orgs.NotAnObject? {
        assert before + [] == before;
        continue;
      }
      for j := 0 to |orgs.entries|
        invariant Best(keys, held) == BestOf(before + OrgGrants(role, orgs.entries[..j]))
      {
        var (org, domain) := orgs.entries[j];
        var candidate := Membership(org, domain, role);
        GrantsNext(before, role, orgs.entries, j);
        if org !in held {
          keys, held := keys + [org], held[org := candidate];
        } else if Rank(role) > Rank(held[org].role) {
          held := held[org := candidate];
        }
      }
      assert orgs.entries[..|orgs.entries|] == orgs.entries;
    }
    assert claim.roles[..|claim.roles|] == claim.roles;
    KeysAreOrgs(Grants(claim.roles));
    out := SortBy(key, Values(Best(keys, held)));
  }

  lemma {:induction false} GrantsNext(before: seq<Membership>, role: string, entries: seq<(string, string)>, j: nat)
    requires j < |entries|
    ensures BestOf(before + OrgGrants(role, entries[..j + 1]))
         == Hold(BestOf(before + OrgGrants(role, entries[..j])), Membership(entries[j].0, entries[j].1, role))
    ensures before + OrgGrants(role, entries[..0]) == before
  {
    assert entries[..j + 1][..j] == entries[..j];
    var all := before + OrgGrants(role, entries[..j + 1]);
    assert all[..|all| - 1] == before + OrgGrants(role, entries[..j]);
  }
}
