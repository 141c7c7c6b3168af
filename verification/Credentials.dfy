/** The textual credential formats of libs/go-shared/auth (apikey.go, token.go, password.go)
    and the key argument of cmd/axebom/verify.go. Hashes, MACs and JSON are parameters. */
module Credentials {
  import opened Optional
  import opened Text
  import opened Encoding

  // ---- API keys --------------------------------------------------------------------------

  const KEY_PREFIX := "ebk_"
  const ID_BYTES: nat := 6

  /** The part before the first `sep`, or nothing if there is none (`strings.Cut`). */
  function CutBefore(s: string, sep: char): Option<string> {
    if s == "" then None
    else if s[0] == sep then Some("")
    else
      match CutBefore(s[1..], sep)
      case None => None
      case Some(before) => Some([s[0]] + before)
  }

  lemma {:induction false} CutAtFirst(before: string, sep: char, after: string)
    requires sep !in before
    ensures CutBefore(before + [sep] + after, sep) == Some(before)
    decreases |before|
  {
    if before != "" {
      CutAtFirst(before[1..], sep, after);
      assert (before + [sep] + after)[1..] == before[1..] + [sep] + after;
      assert before == [before[0]] + before[1..];
    }
  }

  /** The plaintext `Mint` returns. */
  function KeyText(id: seq<byte>, secret: seq<byte>): string {
    KEY_PREFIX + HexEncode(id) + "_" + Encode(Url, secret)
  }

  predicate StartsWith(s: string, prefix: string) {
    |s| >= |prefix| && s[..|prefix|] == prefix
  }

  /** `ParseKeyID`. */
  function ParseKeyId(presented: string): Option<string> {
    if !StartsWith(presented, KEY_PREFIX) then None
    else
      match CutBefore(presented[|KEY_PREFIX|..], '_')
      case None => None
      case Some(id) => if |id| != ID_BYTES * 2 then None else Some(id)
  }

  lemma {:induction false} CutExactly(s: string, sep: char, before: string)
    ensures CutBefore(s, sep) == Some(before) <==> sep !in before && exists after :: s == before + [sep] + after
    decreases |s|
  {
    if CutBefore(s, sep) == Some(before) {
      if s[0] == sep {
        assert s == before + [sep] + s[1..];
      } else {
        CutExactly(s[1..], sep, before[1..]);
        var after :| s[1..] == before[1..] + [sep] + after;
        assert before == [s[0]] + before[1..];
        assert s == before + [sep] + after;
      }
    }
    if sep !in before {
      forall after | s == before + [sep] + after ensures CutBefore(s, sep) == Some(before) {
        CutAtFirst(before, sep, after);
      }
    }
  }

  /** Of any text presented, the id is the twelve characters between `ebk_` and the next
      underscore, and if they are not twelve or there is none it is no key. */
  lemma {:induction false} KeyIdExactly(presented: string, id: string)
    ensures ParseKeyId(presented) == Some(id) <==>
      |id| == 12 && '_' !in id && exists rest :: presented == "ebk_" + id + "_" + rest
  {
    hide CutBefore;
    if StartsWith(presented, KEY_PREFIX) {
      CutExactly(presented[4..], '_', id);
      assert presented == "ebk_" + presented[4..];
      forall rest | presented[4..] == id + "_" + rest ensures presented == "ebk_" + id + "_" + rest {}
    }
    forall rest | presented == "ebk_" + id + "_" + rest
      ensures StartsWith(presented, KEY_PREFIX) && presented[4..] == id + "_" + rest
    {
      assert presented == "ebk_" + (id + "_" + rest);
    }
  }

  /** Whatever the secret, and although its alphabet has `_`, the id comes back; and an id of
      another length never does. */
  lemma {:induction false} KeyIdRecovered(id: seq<byte>, secret: seq<byte>)
    ensures ParseKeyId(KeyText(id, secret)) == if |id| == ID_BYTES then Some(HexEncode(id)) else None
    ensures |id| == ID_BYTES ==> HexDecode(ParseKeyId(KeyText(id, secret)).value) == Some(id)
  {
    hide HexEncode, HexDecode, Encode, ParseKeyId, CutBefore, IsLowerHex;
    HexNoUnderscore(id);
    ParseAfterPrefix(HexEncode(id), Encode(Url, secret));
  }

  lemma {:induction false} HexNoUnderscore(id: seq<byte>)
    ensures '_' !in HexEncode(id) && HexDecode(HexEncode(id)) == Some(id)
  {
    HexRoundTrip(id);
    hide HexEncode, HexDecode;
    forall i | 0 <= i < |HexEncode(id)| ensures HexEncode(id)[i] != '_' {
      assert IsLowerHex(HexEncode(id)[i]);
    }
  }

  lemma ParseAfterPrefix(hex: string, tail: string)
    requires '_' !in hex
    ensures ParseKeyId(KEY_PREFIX + hex + "_" + tail) == if |hex| == ID_BYTES * 2 then Some(hex) else None
  {
    var rest := hex + "_" + tail;
    var text := KEY_PREFIX + hex + "_" + tail;
    assert text == KEY_PREFIX + rest;
    assert text[..|KEY_PREFIX|] == KEY_PREFIX && text[|KEY_PREFIX|..] == rest;
    CutAtFirst(hex, '_', tail);
  }

  /** Different ids never share a key text. */
  lemma KeyTextsDiffer(id: seq<byte>, secret: seq<byte>, id': seq<byte>, secret': seq<byte>)
    requires |id| == |id'| == ID_BYTES && KeyText(id, secret) == KeyText(id', secret')
    ensures id == id' && secret == secret'
  {
    KeyIdRecovered(id, secret);
    KeyIdRecovered(id', secret');
    var start := KEY_PREFIX + HexEncode(id) + "_";
    assert Encode(Url, secret) == KeyText(id, secret)[|start|..];
    assert Encode(Url, secret') == KeyText(id', secret')[|start|..];
    RawRoundTrip(Url, secret);
    RawRoundTrip(Url, secret');
  }

  // ---- signed tokens ------------------------------------------------------------------------

  datatype Role = Owner | Admin | Analyst | Viewer | UnknownRole(name: string)

  /** The claims that are checked. Times are whole seconds. */
  datatype Claims = Claims(subject: string, tenant: string, role: Role, issuedAt: int, expires: int, issuer: string)

  datatype Reason = Malformed | BadSignature | WrongIssuer | Expired | FromTheFuture | NoSubject | BadRole

  datatype Verdict = Accepted(claims: Claims) | Refused(why: Reason)

  /** Nanoseconds to whole seconds (`Time.Unix`), rounding down. */
  function Unix(ns: int): int {
    ns / 1_000_000_000
  }

  const SKEW: int := 120_000_000_000

  /** `Claims.Valid` at a time in nanoseconds: the first thing wrong, if any. */
  function ClaimsProblem(c: Claims, now: int): Option<Reason> {
    if c.expires <= Unix(now) then Some(Expired)
    else if c.issuedAt > Unix(now + SKEW) then Some(FromTheFuture)
    else if c.subject == "" || c.tenant == "" then Some(NoSubject)
    else if c.role.UnknownRole? then Some(BadRole)
    else None
  }

  /** The signing key and the JSON codec of one issuer, as functions. */
  datatype Issuer = Issuer(
    name: string, ttl: int,
    mac: string -> seq<byte>,
    marshal: Claims -> seq<byte>,
    unmarshal: seq<byte> -> Option<Claims>)

  /** The bytes of the header {"alg":"HS256","typ":"JWT"}. */
  const HEADER: seq<byte> :=
    [123, 34, 97, 108, 103, 34, 58, 34, 72, 83, 50, 53, 54, 34, 44, 34, 116, 121, 112, 34, 58, 34, 74, 87, 84, 34, 125]

  /** `signClaims` (RFC 7515, section 7.1: three base64url parts joined by dots). */
  function SignClaims(i: Issuer, c: Claims): string {
    var signing := Encode(Url, HEADER) + "." + Encode(Url, i.marshal(c));
    signing + "." + Encode(Url, i.mac(signing))
  }

  /** `VerifyAccess`. */
  function VerifyAccess(i: Issuer, token: string, now: int): Verdict {
    var parts := Split(token, '.');
    if |parts| != 3 then Refused(Malformed)
    else
      var signing := parts[0] + "." + parts[1];
      match DecodeRaw(Url, parts[2])
      case None => Refused(Malformed)
      case Some(sig) =>
        if sig != i.mac(signing) then Refused(BadSignature)
        else
          match DecodeRaw(Url, parts[1])
          case None => Refused(Malformed)
          case Some(raw) =>
            match i.unmarshal(raw)
            case None => Refused(Malformed)
            case Some(claims) =>
              if claims.issuer != i.name then Refused(WrongIssuer)
              else
                match ClaimsProblem(claims, now)
                case Some(why) => Refused(why)
                case None => Accepted(claims)
  }

  /** A signed token is exactly three parts, which decode to the header, the claims and the MAC. */
  lemma {:induction false} ThreeParts(i: Issuer, c: Claims)
    ensures
      var parts := Split(SignClaims(i, c), '.');
      && |parts| == 3 && DecodeRaw(Url, parts[0]) == Some(HEADER)
      && DecodeRaw(Url, parts[1]) == Some(i.marshal(c))
      && DecodeRaw(Url, parts[2]) == Some(i.mac(parts[0] + "." + parts[1]))
  {
    var h, p := Encode(Url, HEADER), Encode(Url, i.marshal(c));
    var s := Encode(Url, i.mac(h + "." + p));
    EncodedIsClean(Url, HEADER);
    EncodedIsClean(Url, i.marshal(c));
    EncodedIsClean(Url, i.mac(h + "." + p));
    RawRoundTrip(Url, HEADER);
    RawRoundTrip(Url, i.marshal(c));
    RawRoundTrip(Url, i.mac(h + "." + p));
    hide Encode, DecodeRaw, Split;
    SplitThree(h, p, s);
    assert SignClaims(i, c) == h + "." + p + "." + s;
  }

  lemma SplitThree(h: string, p: string, s: string)
    requires '.' !in h && '.' !in p && '.' !in s
    ensures Split(h + "." + p + "." + s, '.') == [h, p, s]
  {
    SplitFirst(h, '.', p + "." + s);
    SplitFirst(p, '.', s);
    SplitWithout(s, '.');
    assert h + "." + p + "." + s == h + "." + (p + "." + s);
  }

  /** A part without the separator comes off the front. */
  lemma {:induction false} SplitFirst(a: string, sep: char, rest: string)
    requires sep !in a
    ensures Split(a + [sep] + rest, sep) == [a] + Split(rest, sep)
    decreases |a|
  {
    var s := a + [sep] + rest;
    if a == "" {
      assert s[1..] == rest && s[0] == sep;
    } else {
      SplitFirst(a[1..], sep, rest);
      assert s[1..] == a[1..] + [sep] + rest && s[0] == a[0] != sep;
      assert a == [a[0]] + a[1..];
    }
  }

  /** An issuer that wrote a token with a JSON codec that round-trips verifies it, as these very
      claims, exactly while the claims are in order: inside their time window, complete, with
      a known role and this issuer's name. */
  lemma {:induction false} VerifiesExactly(i: Issuer, c: Claims, now: int)
    requires i.unmarshal(i.marshal(c)) == Some(c)
    ensures VerifyAccess(i, SignClaims(i, c), now) ==
      if c.issuer != i.name then Refused(WrongIssuer)
      else match ClaimsProblem(c, now) case Some(why) => Refused(why) case None => Accepted(c)
  {
    ThreeParts(i, c);
  }

  /** The text is h.p.s without further dots, and s is this issuer's MAC of the other two. */
  ghost predicate SignedAs(i: Issuer, token: string, h: string, p: string, s: string) {
    && token == h + "." + p + "." + s && '.' !in h && '.' !in p && '.' !in s
    && DecodeRaw(Url, s) == Some(i.mac(h + "." + p))
  }

  ghost predicate Says(i: Issuer, p: string, c: Claims) {
    exists raw :: DecodeRaw(Url, p) == Some(raw) && i.unmarshal(raw) == Some(c)
  }

  /** Not expired, issued at most two minutes ahead, of this issuer, complete and with a known role. */
  predicate InOrder(i: Issuer, c: Claims, now: int) {
    && c.issuer == i.name && c.subject != "" && c.tenant != "" && !c.role.UnknownRole?
    && Unix(now) < c.expires && c.issuedAt <= Unix(now) + 120
  }

  /** Over every text, issuer and moment: claims are accepted exactly when the text is three parts
      signed by this issuer, the second says those claims, and they are in order. */
  lemma {:induction false} AcceptedExactly(i: Issuer, token: string, now: int, c: Claims)
    ensures VerifyAccess(i, token, now) == Accepted(c)
       <==> InOrder(i, c, now) && exists h, p, s :: SignedAs(i, token, h, p, s) && Says(i, p, c)
  {
    hide DecodeRaw, Split;
    assert Unix(now + SKEW) == Unix(now) + 120;
    var parts := Split(token, '.');
    if |parts| == 3 {
      ThreePartsOf(token);
      assert SignedAs(i, token, parts[0], parts[1], parts[2]) <==> DecodeRaw(Url, parts[2]) == Some(i.mac(parts[0] + "." + parts[1]));
    }
    forall h, p, s | SignedAs(i, token, h, p, s) ensures parts == [h, p, s] {
      SplitThree(h, p, s);
    }
  }

  /** A text whose third part decodes to anything but the MAC is refused for that, whatever the
      second says: nothing unsigned is parsed. */
  lemma {:induction false} ForgedExactly(i: Issuer, token: string, now: int)
    ensures VerifyAccess(i, token, now) == Refused(BadSignature)
       <==> exists h, p, s :: token == h + "." + p + "." + s && '.' !in h && '.' !in p && '.' !in s
              && DecodeRaw(Url, s).Some? && DecodeRaw(Url, s) != Some(i.mac(h + "." + p))
  {
    hide DecodeRaw, Split;
    var parts := Split(token, '.');
    if |parts| == 3 {
      ThreePartsOf(token);
      assert token == parts[0] + "." + parts[1] + "." + parts[2];
    }
    forall h, p, s | token == h + "." + p + "." + s && '.' !in h && '.' !in p && '.' !in s ensures parts == [h, p, s] {
      SplitThree(h, p, s);
    }
  }

  lemma ThreePartsOf(token: string)
    requires |Split(token, '.')| == 3
    ensures
      var parts := Split(token, '.');
      token == parts[0] + "." + parts[1] + "." + parts[2] && '.' !in parts[0] && '.' !in parts[1] && '.' !in parts[2]
  {
    var parts := Split(token, '.');
    JoinSplit(token, '.');
    assert parts[1..] == [parts[1], parts[2]] && parts[2..] == [parts[2]] && parts[1..][1..] == parts[2..];
    assert Join(parts[2..], ".") == parts[2];
    assert Join(parts[1..], ".") == parts[1] + "." + parts[2];
    assert Join(parts, ".") == parts[0] + "." + (parts[1] + "." + parts[2]);
  }

  /** `IssueAccess`. */
  function IssuedClaims(i: Issuer, subject: string, tenant: string, role: Role, at: int): Claims {
    Claims(subject, tenant, role, Unix(at), Unix(at + i.ttl), i.name)
  }

  /** A token issued at one moment is accepted at another exactly when that is at most two
      minutes before (by whole seconds) and before the expiry second. */
  lemma {:induction false} IssuedWindow(i: Issuer, subject: string, tenant: string, role: Role, at: int, now: int)
    requires subject != "" && tenant != "" && !role.UnknownRole?
    requires i.unmarshal(i.marshal(IssuedClaims(i, subject, tenant, role, at))) == Some(IssuedClaims(i, subject, tenant, role, at))
    ensures
      var token := SignClaims(i, IssuedClaims(i, subject, tenant, role, at));
      VerifyAccess(i, token, now).Accepted? <==> Unix(at) - 120 <= Unix(now) < Unix(at + i.ttl)
  {
    VerifiesExactly(i, IssuedClaims(i, subject, tenant, role, at), now);
    assert Unix(now + SKEW) == Unix(now) + 120;
  }

  // ---- password hashes -------------------------------------------------------------------------

  const ARGON2_VERSION: nat := 19
  const UINT32: nat := 0x1_0000_0000
  const UINT8: nat := 0x100

  datatype Params = Params(memory: nat, iterations: nat, parallelism: nat, saltLength: nat, keyLength: nat)

  predicate Fits(p: Params) {
    p.memory < UINT32 && p.iterations < UINT32 && p.parallelism < UINT8 && p.saltLength < UINT32 && p.keyLength < UINT32
  }

  function Dollar(part: string, rest: string): string {
    part + "$" + rest
  }

  function CostText(p: Params): string {
    "m=" + Decimal(p.memory) + (",t=" + Decimal(p.iterations) + (",p=" + Decimal(p.parallelism) + ""))
  }

  /** What `HashPassword` formats, for the salt and the derived key. */
  function HashText(p: Params, salt: seq<byte>, key: seq<byte>): string {
    Dollar("", Dollar("argon2id", Dollar("v=" + Decimal(ARGON2_VERSION) + "",
      Dollar(CostText(p), Dollar(Encode(Std, salt), Encode(Std, key))))))
  }

  /** The leading digits of s, and the rest. */
  function SpanDigits(s: string): (r: (string, string))
    ensures AllDigits(r.0) && s == r.0 + r.1
  {
    if s == "" || !IsDigit(s[0]) then ("", s)
    else
      var (d, rest) := SpanDigits(s[1..]);
      ([s[0]] + d, rest)
  }

  lemma {:induction false} SpanStops(d: string, rest: string)
    requires AllDigits(d) && (rest == "" || !IsDigit(rest[0]))
    ensures SpanDigits(d + rest) == (d, rest)
    decreases |d|
  {
    if d == "" {
      assert d + rest == rest;
    } else {
      SpanStops(d[1..], rest);
      assert (d + rest)[1..] == d[1..] + rest && d == [d[0]] + d[1..];
    }
  }

  /** Scan a literal and then a number below `limit`, and what is left. */
  function ScanNumber(s: string, literal: string, limit: nat): Option<(nat, string)> {
    if !StartsWith(s, literal) then None
    else
      var (d, rest) := SpanDigits(s[|literal|..]);
      if d == "" || DecimalValue(d) >= limit then None else Some((DecimalValue(d), rest))
  }

  lemma ScanPrinted(literal: string, n: nat, rest: string, limit: nat)
    requires n < limit && (rest == "" || !IsDigit(rest[0]))
    ensures ScanNumber(literal + Decimal(n) + rest, literal, limit) == Some((n, rest))
  {
    var s := literal + Decimal(n) + rest;
    assert s[..|literal|] == literal && s[|literal|..] == Decimal(n) + rest;
    SpanStops(Decimal(n), rest);
    DecimalRoundTrip(n);
  }

  /** The text is the literal, all the digits that follow it, and the rest. */
  ghost predicate Scans(s: string, literal: string, n: nat, rest: string) {
    exists d :: s == literal + d + rest && d != "" && AllDigits(d) && DecimalValue(d) == n && (rest == "" || !IsDigit(rest[0]))
  }

  lemma {:induction false} SpanIsLongest(s: string)
    ensures SpanDigits(s).1 == "" || !IsDigit(SpanDigits(s).1[0])
    decreases |s|
  {
    if s != "" {
      SpanIsLongest(s[1..]);
    }
  }

  lemma {:induction false} ScanExactly(s: string, literal: string, limit: nat, n: nat, rest: string)
    ensures ScanNumber(s, literal, limit) == Some((n, rest)) <==> n < limit && Scans(s, literal, n, rest)
  {
    hide DecimalValue;
    if ScanNumber(s, literal, limit) == Some((n, rest)) {
      var d := SpanDigits(s[|literal|..]).0;
      SpanIsLongest(s[|literal|..]);
      assert s == literal + d + rest;
    }
    forall d | s == literal + d + rest && d != "" && AllDigits(d) && DecimalValue(d) == n && (rest == "" || !IsDigit(rest[0])) && n < limit
      ensures ScanNumber(s, literal, limit) == Some((n, rest))
    {
      assert s[..|literal|] == literal && s[|literal|..] == d + rest;
      SpanStops(d, rest);
    }
  }

  /** `Sscanf` with "m=%d,t=%d,p=%d"; text after the last number is not looked at. */
  function ScanCosts(s: string): Option<(nat, nat, nat)> {
    match ScanNumber(s, "m=", UINT32)
    case None => None
    case Some((m, afterM)) =>
      match ScanNumber(afterM, ",t=", UINT32)
      case None => None
      case Some((t, afterT)) =>
        match ScanNumber(afterT, ",p=", UINT8)
        case None => None
        case Some((p, _)) => Some((m, t, p))
  }

  datatype Decoded = Decoded(params: Params, salt: seq<byte>, key: seq<byte>)

  datatype HashError = NotArgon2id | UnreadableVersion | UnsupportedVersion | UnreadableCosts | UnreadableSalt | UnreadableKey

  datatype HashResult = Ok(value: Decoded) | Err(error: HashError)

  const INT_LIMIT: nat := 0x8000_0000_0000_0000

  /** `decodeHash`. */
  function DecodeHash(encoded: string): HashResult {
    var parts := Split(encoded, '$');
    if |parts| != 6 || parts[1] != "argon2id" then Err(NotArgon2id)
    else
      match ScanNumber(parts[2], "v=", INT_LIMIT)
      case None => Err(UnreadableVersion)
      case Some((version, _)) =>
        if version != ARGON2_VERSION then Err(UnsupportedVersion)
        else
          match ScanCosts(parts[3])
          case None => Err(UnreadableCosts)
          case Some((m, t, p)) =>
            match DecodeRaw(Std, parts[4])
            case None => Err(UnreadableSalt)
            case Some(salt) =>
              match DecodeRaw(Std, parts[5])
              case None => Err(UnreadableKey)
              case Some(key) => Ok(Decoded(Params(m, t, p, |salt| % UINT32, |key| % UINT32), salt, key))
  }

  /** The costs are three numbers behind their names, in this order, each within its width. */
  ghost predicate SaysCosts(s: string, m: nat, t: nat, p: nat) {
    && m < 0x1_0000_0000 && t < 0x1_0000_0000 && p < 0x100
    && exists afterM, afterT, afterP :: Scans(s, "m=", m, afterM) && Scans(afterM, ",t=", t, afterT) && Scans(afterT, ",p=", p, afterP)
  }

  lemma {:induction false} CostsExactly(s: string, m: nat, t: nat, p: nat)
    ensures ScanCosts(s) == Some((m, t, p)) <==> SaysCosts(s, m, t, p)
  {
    hide ScanNumber, Scans;
    if ScanCosts(s) == Some((m, t, p)) {
      var afterM := ScanNumber(s, "m=", UINT32).value.1;
      var afterT := ScanNumber(afterM, ",t=", UINT32).value.1;
      var afterP := ScanNumber(afterT, ",p=", UINT8).value.1;
      ScanExactly(s, "m=", UINT32, m, afterM);
      ScanExactly(afterM, ",t=", UINT32, t, afterT);
      ScanExactly(afterT, ",p=", UINT8, p, afterP);
      assert Scans(s, "m=", m, afterM) && Scans(afterM, ",t=", t, afterT) && Scans(afterT, ",p=", p, afterP);
    }
    if SaysCosts(s, m, t, p) {
      var afterM, afterT, afterP :| Scans(s, "m=", m, afterM) && Scans(afterM, ",t=", t, afterT) && Scans(afterT, ",p=", p, afterP);
      ScanExactly(s, "m=", UINT32, m, afterM);
      ScanExactly(afterM, ",t=", UINT32, t, afterT);
      ScanExactly(afterT, ",p=", UINT8, p, afterP);
    }
  }

  /** What a hash text says: whatever stands before the first dollar, the algorithm, version 19, the
      costs, and salt and key in unpadded base64. */
  ghost predicate SaysHash(encoded: string, d: Decoded) {
    exists a, v, c, s, k, afterV ::
      && encoded == a + "$" + "argon2id" + "$" + v + "$" + c + "$" + s + "$" + k
      && '$' !in a && '$' !in v && '$' !in c && '$' !in s && '$' !in k
      && Scans(v, "v=", 19, afterV) && SaysCosts(c, d.params.memory, d.params.iterations, d.params.parallelism)
      && DecodeRaw(Std, s) == Some(d.salt) && DecodeRaw(Std, k) == Some(d.key)
      && d.params.saltLength == |d.salt| % 0x1_0000_0000 && d.params.keyLength == |d.key| % 0x1_0000_0000
  }

  lemma SixPartsOf(t: string, parts: seq<string>)
    requires |parts| == 6 && parts == Split(t, '$')
    ensures t == parts[0] + "$" + parts[1] + "$" + parts[2] + "$" + parts[3] + "$" + parts[4] + "$" + parts[5]
    ensures forall i :: 0 <= i < 6 ==> '$' !in parts[i]
  {
    JoinSplit(t, '$');
    hide Split;
    assert parts[5..] == [parts[5]] && parts[4..][1..] == parts[5..] && parts[3..][1..] == parts[4..];
    assert parts[2..][1..] == parts[3..] && parts[1..][1..] == parts[2..];
    assert Join(parts[5..], "$") == parts[5];
    assert Join(parts[4..], "$") == parts[4] + "$" + parts[5];
    assert Join(parts[3..], "$") == parts[3] + "$" + Join(parts[4..], "$");
    assert Join(parts[2..], "$") == parts[2] + "$" + Join(parts[3..], "$");
    assert Join(parts[1..], "$") == parts[1] + "$" + Join(parts[2..], "$");
    assert Join(parts, "$") == parts[0] + "$" + Join(parts[1..], "$");
  }

  lemma SplitSix(a: string, b: string, c: string, d: string, e: string, f: string)
    requires '$' !in a && '$' !in b && '$' !in c && '$' !in d && '$' !in e && '$' !in f
    ensures Split(a + "$" + b + "$" + c + "$" + d + "$" + e + "$" + f, '$') == [a, b, c, d, e, f]
  {
    hide Split;
    var ef := e + "$" + f;
    var de := d + "$" + ef;
    var ce := c + "$" + de;
    var be := b + "$" + ce;
    SplitFirst(a, '$', be);
    SplitFirst(b, '$', ce);
    SplitFirst(c, '$', de);
    SplitFirst(d, '$', ef);
    SplitFirst(e, '$', f);
    SplitWithout(f, '$');
    assert a + "$" + b + "$" + c + "$" + d + "$" + e + "$" + f == a + "$" + be;
  }

  /** Over every text: what is decoded is what the text says, and a text that says nothing is refused. */
  lemma {:induction false} HashDecodedExactly(encoded: string, d: Decoded)
    ensures DecodeHash(encoded) == Ok(d) <==> SaysHash(encoded, d)
  {
    hide ScanNumber, ScanCosts, Scans, SaysCosts, DecodeRaw, Split;
    if DecodeHash(encoded) == Ok(d) {
      var parts := Split(encoded, '$');
      SixPartsOf(encoded, parts);
      var afterV := ScanNumber(parts[2], "v=", INT_LIMIT).value.1;
      ScanExactly(parts[2], "v=", INT_LIMIT, 19, afterV);
      CostsExactly(parts[3], d.params.memory, d.params.iterations, d.params.parallelism);
      assert encoded == parts[0] + "$" + "argon2id" + "$" + parts[2] + "$" + parts[3] + "$" + parts[4] + "$" + parts[5];
    }
    if SaysHash(encoded, d) {
      var a, v, c, s, k, afterV :|
        && encoded == a + "$" + "argon2id" + "$" + v + "$" + c + "$" + s + "$" + k
        && '$' !in a && '$' !in v && '$' !in c && '$' !in s && '$' !in k
        && Scans(v, "v=", 19, afterV) && SaysCosts(c, d.params.memory, d.params.iterations, d.params.parallelism)
        && DecodeRaw(Std, s) == Some(d.salt) && DecodeRaw(Std, k) == Some(d.key)
        && d.params.saltLength == |d.salt| % 0x1_0000_0000 && d.params.keyLength == |d.key| % 0x1_0000_0000;
      SaidIsDecoded(encoded, d, a, v, c, s, k, afterV);
    }
  }

  lemma {:induction false} SaidIsDecoded(encoded: string, d: Decoded, a: string, v: string, c: string, s: string, k: string, afterV: string)
    requires encoded == a + "$" + "argon2id" + "$" + v + "$" + c + "$" + s + "$" + k
    requires '$' !in a && '$' !in v && '$' !in c && '$' !in s && '$' !in k
    requires Scans(v, "v=", 19, afterV) && SaysCosts(c, d.params.memory, d.params.iterations, d.params.parallelism)
    requires DecodeRaw(Std, s) == Some(d.salt) && DecodeRaw(Std, k) == Some(d.key)
    requires d.params.saltLength == |d.salt| % UINT32 && d.params.keyLength == |d.key| % UINT32
    ensures DecodeHash(encoded) == Ok(d)
  {
    hide ScanNumber, ScanCosts, Scans, SaysCosts, DecodeRaw, Split, DecodeHash;
    SplitSix(a, "argon2id", v, c, s, k);
    ScanExactly(v, "v=", INT_LIMIT, 19, afterV);
    CostsExactly(c, d.params.memory, d.params.iterations, d.params.parallelism);
    PartsDecode(encoded, [a, "argon2id", v, c, s, k], afterV, d);
  }

  lemma PartsDecode(encoded: string, parts: seq<string>, afterV: string, d: Decoded)
    requires Split(encoded, '$') == parts && |parts| == 6 && parts[1] == "argon2id"
    requires ScanNumber(parts[2], "v=", INT_LIMIT) == Some((19, afterV))
    requires ScanCosts(parts[3]) == Some((d.params.memory, d.params.iterations, d.params.parallelism))
    requires DecodeRaw(Std, parts[4]) == Some(d.salt) && DecodeRaw(Std, parts[5]) == Some(d.key)
    requires d.params.saltLength == |d.salt| % UINT32 && d.params.keyLength == |d.key| % UINT32
    ensures DecodeHash(encoded) == Ok(d)
  {
    hide ScanNumber, ScanCosts, DecodeRaw, Split;
  }

  /** The text of a hash, flat. */
  lemma HashTextIs(p: Params, salt: seq<byte>, key: seq<byte>)
    ensures HashText(p, salt, key) ==
      "$argon2id$v=19$m=" + Decimal(p.memory) + ",t=" + Decimal(p.iterations) + ",p=" + Decimal(p.parallelism)
      + "$" + Encode(Std, salt) + "$" + Encode(Std, key)
  {
    assert Decimal(19) == "19" by {
      assert Decimal(1) == "1";
    }
    hide Encode, Decimal;
    FlatCosts(Decimal(p.memory), Decimal(p.iterations), Decimal(p.parallelism));
    FlatHash(CostText(p), Encode(Std, salt), Encode(Std, key));
    FlatStart(Decimal(p.memory) + ",t=" + Decimal(p.iterations) + ",p=" + Decimal(p.parallelism), "$" + Encode(Std, salt) + "$" + Encode(Std, key));
    var costs := Decimal(p.memory) + ",t=" + Decimal(p.iterations) + ",p=" + Decimal(p.parallelism);
    assert CostText(p) == "m=" + costs;
    Regroup("$argon2id$v=19$m=", Decimal(p.memory), ",t=", Decimal(p.iterations), ",p=", Decimal(p.parallelism));
    Regroup4("$argon2id$v=19$m=" + costs, "$", Encode(Std, salt), "$", Encode(Std, key));
  }

  lemma Regroup(a: string, b: string, c: string, d: string, e: string, f: string)
    ensures a + (b + c + d + e + f) == a + b + c + d + e + f
  {
  }

  lemma Regroup4(a: string, b: string, c: string, d: string, e: string)
    ensures a + (b + c + d + e) == a + b + c + d + e
  {
  }

  lemma FlatCosts(m: string, t: string, p: string)
    ensures "m=" + m + (",t=" + t + (",p=" + p + "")) == "m=" + (m + ",t=" + t + ",p=" + p)
  {
  }

  lemma FlatHash(costs: string, salt: string, key: string)
    ensures Dollar("", Dollar("argon2id", Dollar("v=" + "19" + "", Dollar(costs, Dollar(salt, key)))))
         == "$argon2id$v=19$" + costs + ("$" + salt + "$" + key)
  {
    var tail := costs + "$" + (salt + "$" + key);
    assert tail == costs + ("$" + salt + "$" + key);
    assert "v=" + "19" + "" + "$" + tail == "v=19$" + tail;
    assert "argon2id" + "$" + ("v=19$" + tail) == "argon2id$v=19$" + tail;
    assert "" + "$" + ("argon2id$v=19$" + tail) == "$argon2id$v=19$" + tail;
  }

  lemma FlatStart(costs: string, tail: string)
    ensures "$argon2id$v=19$" + ("m=" + costs) + tail == "$argon2id$v=19$m=" + costs + tail
  {
    assert "$argon2id$v=19$" + "m=" == "$argon2id$v=19$m=";
  }

  lemma CostsRoundTrip(p: Params)
    requires Fits(p)
    ensures ScanCosts(CostText(p)) == Some((p.memory, p.iterations, p.parallelism))
  {
    hide ScanNumber, Decimal;
    var end := ",p=" + Decimal(p.parallelism) + "";
    var middle := ",t=" + Decimal(p.iterations) + end;
    ScanPrinted(",p=", p.parallelism, "", UINT8);
    ScanPrinted(",t=", p.iterations, end, UINT32);
    ScanPrinted("m=", p.memory, middle, UINT32);
  }

  lemma NoDollar(a: string, d: string, b: string)
    requires '$' !in a && AllDigits(d) && '$' !in b
    ensures '$' !in a + d + b
  {
  }

  lemma CostsNoDollar(p: Params)
    ensures '$' !in CostText(p)
  {
    hide Decimal, AllDigits;
    var end := ",p=" + Decimal(p.parallelism) + "";
    NoDollar(",p=", Decimal(p.parallelism), "");
    NoDollar(",t=", Decimal(p.iterations), end);
    NoDollar("m=", Decimal(p.memory), ",t=" + Decimal(p.iterations) + end);
  }

  lemma SixParts(a: string, b: string, c: string, d: string, e: string)
    requires '$' !in a && '$' !in b && '$' !in c && '$' !in d && '$' !in e
    ensures Split(Dollar("", Dollar(a, Dollar(b, Dollar(c, Dollar(d, e))))), '$') == ["", a, b, c, d, e]
  {
    hide Split;
    SplitFirst("", '$', Dollar(a, Dollar(b, Dollar(c, Dollar(d, e)))));
    SplitFirst(a, '$', Dollar(b, Dollar(c, Dollar(d, e))));
    SplitFirst(b, '$', Dollar(c, Dollar(d, e)));
    SplitFirst(c, '$', Dollar(d, e));
    SplitFirst(d, '$', e);
    SplitWithout(e, '$');
  }

  lemma HashParts(p: Params, salt: seq<byte>, key: seq<byte>)
    ensures Split(HashText(p, salt, key), '$')
         == ["", "argon2id", "v=" + Decimal(ARGON2_VERSION) + "", CostText(p), Encode(Std, salt), Encode(Std, key)]
  {
    hide Encode, Split, Decimal, AllDigits, CostText, Dollar;
    CostsNoDollar(p);
    EncodedIsClean(Std, salt);
    EncodedIsClean(Std, key);
    NoDollar("v=", Decimal(ARGON2_VERSION), "");
    SixParts("argon2id", "v=" + Decimal(ARGON2_VERSION) + "", CostText(p), Encode(Std, salt), Encode(Std, key));
  }

  /** Everything a hash was made with comes back out of its text. */
  lemma {:induction false} HashRoundTrip(p: Params, salt: seq<byte>, key: seq<byte>)
    requires Fits(p) && |salt| == p.saltLength && |key| == p.keyLength
    ensures DecodeHash(HashText(p, salt, key)) == Ok(Decoded(p, salt, key))
  {
    hide Encode, DecodeRaw, Split, Decimal, ScanNumber, ScanCosts, HashText;
    HashParts(p, salt, key);
    ScanPrinted("v=", ARGON2_VERSION, "", INT_LIMIT);
    CostsRoundTrip(p);
    RawRoundTrip(Std, salt);
    RawRoundTrip(Std, key);
  }

  /** `NeedsRehash`. */
  predicate NeedsRehash(encoded: string, current: Params) {
    match DecodeHash(encoded)
    case Err(_) => true
    case Ok(d) =>
      d.params.memory < current.memory || d.params.iterations < current.iterations || d.params.keyLength < current.keyLength
  }

  /** A hash is due for renewal exactly when its memory, iterations or key length is below
      policy: never under its own policy, and never for its salt length or parallelism. */
  lemma RehashExactly(p: Params, salt: seq<byte>, key: seq<byte>, current: Params)
    requires Fits(p) && |salt| == p.saltLength && |key| == p.keyLength
    ensures NeedsRehash(HashText(p, salt, key), current) <==>
      p.memory < current.memory || p.iterations < current.iterations || p.keyLength < current.keyLength
    ensures !NeedsRehash(HashText(p, salt, key), p)
    ensures !NeedsRehash(HashText(p, salt, key), p.(saltLength := current.saltLength, parallelism := current.parallelism))
  {
    HashRoundTrip(p, salt, key);
  }

  /** Over every text: a hash can stay exactly when it says parameters none of which is below policy;
      one that says nothing is replaced. */
  lemma RehashAnyText(encoded: string, current: Params)
    ensures !NeedsRehash(encoded, current) <==>
      exists d :: SaysHash(encoded, d) && d.params.memory >= current.memory && d.params.iterations >= current.iterations
                  && d.params.keyLength >= current.keyLength
  {
    hide SaysHash, DecodeHash;
    if DecodeHash(encoded).Ok? {
      HashDecodedExactly(encoded, DecodeHash(encoded).value);
    }
    forall d | SaysHash(encoded, d) ensures DecodeHash(encoded) == Ok(d) {
      HashDecodedExactly(encoded, d);
    }
  }

  // ---- public keys --------------------------------------------------------------------------------

  const PUBLIC_KEY_SIZE: nat := 32

  /** What both readings of the argument give, in the order they are tried. */
  function Candidates(s: string): seq<seq<byte>> {
    (match HexDecode(s) case Some(raw) => [raw] case None => [])
    + (match DecodePadded(Std, s) case Some(raw) => [raw] case None => [])
  }

  /** The reading of the right size, or else the first. */
  function KeyIn(s: string): Option<seq<byte>> {
    var hex, base64 := HexDecode(s), DecodePadded(Std, s);
    if hex.Some? && |hex.value| == PUBLIC_KEY_SIZE then hex
    else if base64.Some? && |base64.value| == PUBLIC_KEY_SIZE then base64
    else if hex.Some? then hex
    else base64
  }

  /** `decodeKey`: the loop over the candidates. */
  method DecodeKey(s: string) returns (key: Option<seq<byte>>)
    ensures key == KeyIn(s)
    ensures forall raw :: raw in Candidates(s) && |raw| == PUBLIC_KEY_SIZE ==> key == Some(raw)
  {
    var candidates: seq<seq<byte>> := [];
    var hex := HexDecode(s);
    if hex.Some? {
      candidates := candidates + [hex.value];
    }
    var base64 := DecodePadded(Std, s);
    if base64.Some? {
      candidates := candidates + [base64.value];
    }
    assert candidates == Candidates(s);
    if hex.Some? && base64.Some? {
      OneReadingFits(s);
    }
    if |candidates| == 0 {
      return None;
    }
    for i := 0 to |candidates|
      invariant forall j :: 0 <= j < i ==> |candidates[j]| != PUBLIC_KEY_SIZE
    {
      if |candidates[i]| == PUBLIC_KEY_SIZE {
        return Some(candidates[i]);
      }
    }
    assert base64.Some? ==> candidates[|candidates| - 1] == base64.value;
    assert hex.Some? ==> candidates[0] == hex.value;
    key := Some(candidates[0]);
  }

  lemma {:induction false} HexIsSymbols(s: string)
    requires HexDecode(s).Some?
    ensures forall i :: 0 <= i < |s| ==> HexValue(s[i]).Some?
    decreases |s|
  {
    if |s| >= 2 {
      HexIsSymbols(s[2..]);
      assert forall i :: 2 <= i < |s| ==> s[i] == s[2..][i - 2];
    }
  }

  /** A text that is 32 bytes of hexadecimal is 48 as base64, so the two readings never both fit. */
  lemma OneReadingFits(s: string)
    requires HexDecode(s).Some? && DecodePadded(Std, s).Some?
    ensures |HexDecode(s).value| == PUBLIC_KEY_SIZE ==> |DecodePadded(Std, s).value| == 48
  {
    if |HexDecode(s).value| == PUBLIC_KEY_SIZE {
      HexIsSymbols(s);
      forall i | 0 <= i < |s| ensures s[i] != '=' && s[i] != '\r' && s[i] != '\n' {
        assert HexValue(s[i]).Some?;
      }
      NoBreaks(s);
      assert s[|s| - 2..][0] != '=';
      assert DecodedLength(64) == 48 by {
        DecodedGroups(16);
      }
    }
  }

  lemma {:induction false} DecodedGroups(k: nat)
    ensures DecodedLength(4 * k) == 3 * k
    decreases k
  {
    if k > 0 {
      DecodedGroups(k - 1);
    }
  }

  /** Any 32 bytes come back from both their hexadecimal and their base64 text. */
  lemma {:induction false} KeyRoundTrip(raw: seq<byte>)
    requires |raw| == PUBLIC_KEY_SIZE
    ensures KeyIn(HexEncode(raw)) == Some(raw) && KeyIn(EncodePadded(Std, raw)) == Some(raw)
  {
    HexRoundTrip(raw);
    PaddedRoundTrip(Std, raw);
    HexOfPadded(raw);
  }

  /** Base64 of 32 bytes ends in padding, which is no hexadecimal digit. */
  lemma {:induction false} HexOfPadded(raw: seq<byte>)
    requires |raw| == PUBLIC_KEY_SIZE
    ensures HexDecode(EncodePadded(Std, raw)).None?
  {
    hide HexDecode, Encode;
    var s := EncodePadded(Std, raw);
    assert s[|s| - 1] == '=';
    if HexDecode(s).Some? {
      HexIsSymbols(s);
    }
  }
}
