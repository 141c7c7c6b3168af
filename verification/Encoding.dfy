/** Hexadecimal and base64 (RFC 4648, sections 4, 5 and 8) as Go's encoding packages do them. */
module Encoding {
  import opened Optional

  type byte = x: int | 0 <= x < 256 witness 0
  type sextet = x: int | 0 <= x < 64 witness 0

  // ---- hexadecimal -------------------------------------------------------------------

  function HexDigit(n: nat): char
    requires n < 16
  {
    if n < 10 then '0' + n as char else 'a' + (n - 10) as char
  }

  function HexValue(c: char): Option<nat> {
    if '0' <= c <= '9' then Some((c - '0') as nat)
    else if 'a' <= c <= 'f' then Some((c - 'a') as nat + 10)
    else if 'A' <= c <= 'F' then Some((c - 'A') as nat + 10)
    else None
  }

  function HexEncode(bs: seq<byte>): (s: string)
    ensures |s| == 2 * |bs|
  {
    if bs == [] then "" else [HexDigit(bs[0] / 16), HexDigit(bs[0] % 16)] + HexEncode(bs[1..])
  }

  /** hex.DecodeString: either case, an even number of digits, nothing else. */
  function HexDecode(s: string): (r: Option<seq<byte>>)
    ensures r.Some? ==> |s| == 2 * |r.value|
  {
    if s == "" then Some([])
    else if |s| == 1 then None
    else
      match (HexValue(s[0]), HexValue(s[1]), HexDecode(s[2..]))
      case (Some(h), Some(l), Some(rest)) =>
        HexValueRange(s[0]);
        HexValueRange(s[1]);
        Some([(16 * h + l) as byte] + rest)
      case _ => None
  }

  lemma HexValueRange(c: char)
    ensures HexValue(c).Some? ==> HexValue(c).value < 16
  {
  }

  predicate IsLowerHex(c: char) {
    '0' <= c <= '9' || 'a' <= c <= 'f'
  }

  lemma {:induction false} HexRoundTrip(bs: seq<byte>)
    ensures HexDecode(HexEncode(bs)) == Some(bs)
    ensures forall i :: 0 <= i < |HexEncode(bs)| ==> IsLowerHex(HexEncode(bs)[i])
    decreases |bs|
  {
    if bs != [] {
      HexRoundTrip(bs[1..]);
      var s := HexEncode(bs);
      assert s[2..] == HexEncode(bs[1..]);
      assert HexValue(s[0]) == Some(bs[0] / 16) && HexValue(s[1]) == Some(bs[0] % 16);
      assert bs == [bs[0]] + bs[1..];
    }
  }

  lemma HexStep(s: string)
    requires |s| >= 2
    ensures HexDecode(s).Some? <==> HexValue(s[0]).Some? && HexValue(s[1]).Some? && HexDecode(s[2..]).Some?
    ensures HexDecode(s).Some? ==> 16 * HexValue(s[0]).value + HexValue(s[1]).value < 256
    ensures HexDecode(s).Some? ==> HexDecode(s).value == [16 * HexValue(s[0]).value + HexValue(s[1]).value] + HexDecode(s[2..]).value
  {
    HexValueRange(s[0]);
    HexValueRange(s[1]);
    hide HexValue;
  }

  /** Two digits of either case for every byte, and nothing else, are the hexadecimal of those bytes. */
  lemma {:induction false} HexDecodesExactly(s: string)
    ensures HexDecode(s).Some? <==> |s| % 2 == 0 && forall i :: 0 <= i < |s| ==> HexValue(s[i]).Some?
    decreases |s|
  {
    if |s| >= 2 {
      var t := s[2..];
      HexDecodesExactly(t);
      HexStep(s);
      hide HexDecode, HexValue;
      assert forall i :: 0 <= i < |t| ==> t[i] == s[i + 2];
      assert forall i :: 2 <= i < |s| ==> s[i] == t[i - 2];
    }
  }

  /** Byte k is sixteen times its first digit and once its second. */
  lemma {:induction false} HexByte(s: string, k: nat)
    requires HexDecode(s).Some? && k < |HexDecode(s).value|
    ensures HexValue(s[2 * k]).Some? && HexValue(s[2 * k + 1]).Some?
    ensures HexDecode(s).value[k] == 16 * HexValue(s[2 * k]).value + HexValue(s[2 * k + 1]).value
    decreases k
  {
    HexStep(s);
    hide HexDecode, HexValue;
    if k > 0 {
      HexByte(s[2..], k - 1);
      assert s[2..][2 * (k - 1)] == s[2 * k] && s[2..][2 * (k - 1) + 1] == s[2 * k + 1];
    }
  }

  // ---- base64 ---------------------------------------------------------------------------

  /** The two alphabets differ in their last two symbols. */
  datatype Alphabet = Std | Url

  function Symbol(a: Alphabet, v: sextet): char {
    if v < 26 then 'A' + v as char
    else if v < 52 then 'a' + (v - 26) as char
    else if v < 62 then '0' + (v - 52) as char
    else if v == 62 then (if a == Std then '+' else '-')
    else (if a == Std then '/' else '_')
  }

  function SymbolValue(a: Alphabet, c: char): Option<sextet> {
    if 'A' <= c <= 'Z' then Some((c - 'A') as int as sextet)
    else if 'a' <= c <= 'z' then Some(((c - 'a') as int + 26) as sextet)
    else if '0' <= c <= '9' then Some(((c - '0') as int + 52) as sextet)
    else if c == (if a == Std then '+' else '-') then Some(62)
    else if c == (if a == Std then '/' else '_') then Some(63)
    else None
  }

  lemma SymbolRoundTrip(a: Alphabet, v: sextet)
    ensures SymbolValue(a, Symbol(a, v)) == Some(v)
  {
  }

  predicate IsSymbol(a: Alphabet, c: char) {
    SymbolValue(a, c).Some?
  }

  function EncodedLength(n: nat): nat {
    if n == 0 then 0 else if n <= 2 then n + 1 else 4 + EncodedLength(n - 3)
  }

  function DecodedLength(n: nat): nat {
    if n <= 1 then 0 else if n <= 3 then n - 1 else 3 + DecodedLength(n - 4)
  }

  /** Without padding. */
  function Encode(a: Alphabet, bs: seq<byte>): (s: string)
    ensures |s| == EncodedLength(|bs|)
  {
    if bs == [] then ""
    else if |bs| == 1 then [Symbol(a, bs[0] / 4), Symbol(a, bs[0] % 4 * 16)]
    else if |bs| == 2 then [Symbol(a, bs[0] / 4), Symbol(a, bs[0] % 4 * 16 + bs[1] / 16), Symbol(a, bs[1] % 16 * 4)]
    else
      [Symbol(a, bs[0] / 4), Symbol(a, bs[0] % 4 * 16 + bs[1] / 16),
       Symbol(a, bs[1] % 16 * 4 + bs[2] / 64), Symbol(a, bs[2] % 64)] + Encode(a, bs[3..])
  }

  function ThreeBytes(v: sextet, w: sextet, x: sextet, y: sextet): seq<byte> {
    [v * 4 + w / 16, w % 16 * 16 + x / 4, x % 4 * 64 + y]
  }

  /** Groups of four symbols, the last of two or three; spare low bits are ignored. */
  function DecodeSymbols(a: Alphabet, s: string): (r: Option<seq<byte>>)
    ensures r.Some? ==> |r.value| == DecodedLength(|s|)
  {
    if s == "" then Some([])
    else if |s| == 1 then None
    else if |s| == 2 then
      match (SymbolValue(a, s[0]), SymbolValue(a, s[1]))
      case (Some(v), Some(w)) => Some(ThreeBytes(v, w, 0, 0)[..1])
      case _ => None
    else if |s| == 3 then
      match (SymbolValue(a, s[0]), SymbolValue(a, s[1]), SymbolValue(a, s[2]))
      case (Some(v), Some(w), Some(x)) => Some(ThreeBytes(v, w, x, 0)[..2])
      case _ => None
    else
      match (SymbolValue(a, s[0]), SymbolValue(a, s[1]), SymbolValue(a, s[2]), SymbolValue(a, s[3]))
      case (Some(v), Some(w), Some(x), Some(y)) =>
        (match DecodeSymbols(a, s[4..])
         case Some(rest) => Some(ThreeBytes(v, w, x, y) + rest)
         case None => None)
      case _ => None
  }

  lemma FirstGroup(a: Alphabet, b: byte, c: byte, d: byte)
    ensures
      var v, w, x, y: sextet := b / 4, b % 4 * 16 + c / 16, c % 16 * 4 + d / 64, d % 64;
      ThreeBytes(v, w, x, y) == [b, c, d]
  {
  }

  lemma LastOne(b: byte)
    ensures ThreeBytes(b / 4, b % 4 * 16, 0, 0)[..1] == [b]
  {
    assert b % 4 * 16 / 16 == b % 4;
  }

  lemma LastTwo(b: byte, c: byte)
    ensures ThreeBytes(b / 4, b % 4 * 16 + c / 16, c % 16 * 4, 0)[..2] == [b, c]
  {
    var w, x := b % 4 * 16 + c / 16, c % 16 * 4;
    assert w / 16 == b % 4 && w % 16 == c / 16;
    assert x / 4 == c % 16;
  }

  lemma {:induction false} DecodeShort(a: Alphabet, v: sextet, w: sextet, x: sextet)
    ensures DecodeSymbols(a, [Symbol(a, v), Symbol(a, w)]) == Some(ThreeBytes(v, w, 0, 0)[..1])
    ensures DecodeSymbols(a, [Symbol(a, v), Symbol(a, w), Symbol(a, x)]) == Some(ThreeBytes(v, w, x, 0)[..2])
  {
    SymbolRoundTrip(a, v);
    SymbolRoundTrip(a, w);
    SymbolRoundTrip(a, x);
    hide Symbol, SymbolValue, ThreeBytes;
  }

  lemma DecodeGroup(a: Alphabet, v: sextet, w: sextet, x: sextet, y: sextet, t: string)
    requires DecodeSymbols(a, t).Some?
    ensures DecodeSymbols(a, [Symbol(a, v), Symbol(a, w), Symbol(a, x), Symbol(a, y)] + t)
         == Some(ThreeBytes(v, w, x, y) + DecodeSymbols(a, t).value)
  {
    SymbolRoundTrip(a, v);
    SymbolRoundTrip(a, w);
    SymbolRoundTrip(a, x);
    SymbolRoundTrip(a, y);
    hide Symbol, SymbolValue, ThreeBytes;
    var s := [Symbol(a, v), Symbol(a, w), Symbol(a, x), Symbol(a, y)] + t;
    assert s[4..] == t;
  }

  lemma {:induction false} SymbolsRoundTrip(a: Alphabet, bs: seq<byte>)
    ensures DecodeSymbols(a, Encode(a, bs)) == Some(bs)
    decreases |bs|
  {
    hide Symbol, DecodeSymbols, ThreeBytes;
    if bs == [] {
      DecodeNothing(a);
    } else if |bs| == 1 {
      LastOne(bs[0]);
      DecodeShort(a, bs[0] / 4, bs[0] % 4 * 16, 0);
      assert bs == [bs[0]];
    } else if |bs| == 2 {
      LastTwo(bs[0], bs[1]);
      DecodeShort(a, bs[0] / 4, bs[0] % 4 * 16 + bs[1] / 16, bs[1] % 16 * 4);
      assert bs == [bs[0], bs[1]];
    } else {
      FirstGroup(a, bs[0], bs[1], bs[2]);
      SymbolsRoundTrip(a, bs[3..]);
      DecodeGroup(a, bs[0] / 4, bs[0] % 4 * 16 + bs[1] / 16, bs[1] % 16 * 4 + bs[2] / 64, bs[2] % 64, Encode(a, bs[3..]));
      assert bs == [bs[0], bs[1], bs[2]] + bs[3..];
    }
  }

  lemma DecodeNothing(a: Alphabet)
    ensures DecodeSymbols(a, "") == Some([])
  {
  }

  /** Line breaks do not count. */
  function DropBreaks(s: string): string {
    if s == "" then ""
    else (if s[0] == '\r' || s[0] == '\n' then "" else [s[0]]) + DropBreaks(s[1..])
  }

  lemma {:induction false} NoBreaks(s: string)
    requires '\r' !in s && '\n' !in s
    ensures DropBreaks(s) == s
    decreases |s|
  {
    if s != "" {
      NoBreaks(s[1..]);
      assert s == [s[0]] + s[1..];
    }
  }

  /** RawURLEncoding and RawStdEncoding. */
  function DecodeRaw(a: Alphabet, s: string): Option<seq<byte>> {
    DecodeSymbols(a, DropBreaks(s))
  }

  lemma SymbolsStep(a: Alphabet, s: string)
    requires |s| >= 4
    ensures DecodeSymbols(a, s).Some? <==>
      IsSymbol(a, s[0]) && IsSymbol(a, s[1]) && IsSymbol(a, s[2]) && IsSymbol(a, s[3]) && DecodeSymbols(a, s[4..]).Some?
  {
    hide SymbolValue, ThreeBytes;
  }

  lemma AllSymbolsStep(a: Alphabet, s: string)
    requires |s| >= 4
    ensures AllSymbols(a, s) <==>
      IsSymbol(a, s[0]) && IsSymbol(a, s[1]) && IsSymbol(a, s[2]) && IsSymbol(a, s[3]) && AllSymbols(a, s[4..])
  {
    hide IsSymbol;
    assert forall i :: 4 <= i < |s| ==> s[i] == s[4..][i - 4];
    assert forall i :: 0 <= i < |s[4..]| ==> s[4..][i] == s[i + 4];
  }

  lemma {:induction false} SymbolsDecode(a: Alphabet, s: string)
    ensures DecodeSymbols(a, s).Some? <==> AllSymbols(a, s) && |s| % 4 != 1
    decreases |s|
  {
    hide DecodeSymbols, IsSymbol, AllSymbols;
    if |s| >= 4 {
      SymbolsDecode(a, s[4..]);
      SymbolsStep(a, s);
      AllSymbolsStep(a, s);
    } else {
      FewSymbolsDecode(a, s);
    }
  }

  lemma FewSymbolsDecode(a: Alphabet, s: string)
    requires |s| <= 3
    ensures DecodeSymbols(a, s).Some? <==> AllSymbols(a, s) && |s| % 4 != 1
  {
    hide SymbolValue, ThreeBytes;
  }

  /** A text decodes exactly when, line breaks apart, it is all symbols of the alphabet and not one
      symbol too long. */
  lemma {:induction false} RawDecodesExactly(a: Alphabet, s: string)
    ensures DecodeRaw(a, s).Some? <==> AllSymbols(a, DropBreaks(s)) && |DropBreaks(s)| % 4 != 1
  {
    SymbolsDecode(a, DropBreaks(s));
  }

  /** A group of four symbols spells three bytes as one number; groups follow each other; a last
      group of two or three spells one byte or two, and its spare bits do not count. */
  lemma {:induction false} DecodedGroup(a: Alphabet, s: string, v: sextet, w: sextet, x: sextet, y: sextet)
    requires DecodeSymbols(a, s).Some? && |s| >= 2
    requires SymbolValue(a, s[0]) == Some(v) && SymbolValue(a, s[1]) == Some(w)
    requires |s| >= 3 ==> SymbolValue(a, s[2]) == Some(x)
    requires |s| >= 4 ==> SymbolValue(a, s[3]) == Some(y)
    ensures |s| == 2 ==> |DecodeSymbols(a, s).value| == 1 && 16 * (DecodeSymbols(a, s).value[0] as int) == 64 * v + w - w % 16
    ensures |s| == 3 ==> |DecodeSymbols(a, s).value| == 2
    ensures |s| == 3 ==>
      1024 * (DecodeSymbols(a, s).value[0] as int) + 4 * (DecodeSymbols(a, s).value[1] as int) == 4096 * v + 64 * w + x - x % 4
    ensures |s| >= 4 ==> |DecodeSymbols(a, s).value| >= 3
    ensures |s| >= 4 ==>
      65536 * (DecodeSymbols(a, s).value[0] as int) + 256 * (DecodeSymbols(a, s).value[1] as int) + DecodeSymbols(a, s).value[2]
      == 262144 * v + 4096 * w + 64 * x + y
    ensures |s| >= 4 ==> DecodeSymbols(a, s[4..]) == Some(DecodeSymbols(a, s).value[3..])
  {
    hide SymbolValue;
    SplitSextet(w, 16);
    SplitSextet(x, 4);
    if |s| >= 4 {
      assert DecodeSymbols(a, s).value == ThreeBytes(v, w, x, y) + DecodeSymbols(a, s[4..]).value;
    }
  }

  lemma SplitSextet(v: sextet, n: nat)
    requires n == 4 || n == 16
    ensures v == n * (v / n) + v % n
  {
  }

  /** The alphabets: capitals, small letters and digits in order, and two symbols that differ. */
  lemma AlphabetsAre(a: Alphabet, v: sextet)
    ensures Symbol(a, 0) == 'A' && Symbol(a, 26) == 'a' && Symbol(a, 52) == '0'
    ensures Symbol(Std, 62) == '+' && Symbol(Std, 63) == '/' && Symbol(Url, 62) == '-' && Symbol(Url, 63) == '_'
    ensures v < 61 && v != 25 && v != 51 ==> Symbol(a, v + 1) as int == Symbol(a, v) as int + 1
  {
  }

  /** StdEncoding: padded to a multiple of four. */
  function EncodePadded(a: Alphabet, bs: seq<byte>): string {
    Encode(a, bs) + Padding(|bs|)
  }

  function Padding(n: nat): (r: string)
    ensures r == "" || r == "=" || r == "=="
    ensures r != "" ==> n > 0
  {
    if n % 3 == 1 then "==" else if n % 3 == 2 then "=" else ""
  }

  lemma {:induction false} PadLength(n: nat)
    ensures (EncodedLength(n) + |Padding(n)|) % 4 == 0
    ensures n > 0 ==> EncodedLength(n) >= 2
    decreases n
  {
    if n >= 3 {
      PadLength(n - 3);
      assert n % 3 == (n - 3) % 3;
    }
  }

  function DecodePadded(a: Alphabet, s: string): Option<seq<byte>> {
    DecodeFilled(a, DropBreaks(s))
  }

  /** Without line breaks. */
  function DecodeFilled(a: Alphabet, t: string): Option<seq<byte>> {
    if |t| % 4 != 0 then None
    else if t != "" && t[|t| - 2..] == "==" then DecodeSymbols(a, t[..|t| - 2])
    else if t != "" && t[|t| - 1] == '=' then DecodeSymbols(a, t[..|t| - 1])
    else DecodeSymbols(a, t)
  }

  predicate AllSymbols(a: Alphabet, s: string) {
    forall i :: 0 <= i < |s| ==> IsSymbol(a, s[i])
  }

  lemma {:induction false} DecodedAreSymbols(a: Alphabet, s: string)
    requires DecodeSymbols(a, s).Some?
    ensures AllSymbols(a, s)
    decreases |s|
  {
    hide SymbolValue;
    if |s| >= 4 {
      DecodedAreSymbols(a, s[4..]);
      assert forall i :: 4 <= i < |s| ==> s[i] == s[4..][i - 4];
    }
  }

  lemma SymbolsAreClean(a: Alphabet, c: char)
    requires IsSymbol(a, c)
    ensures c != '=' && c != '\r' && c != '\n' && c != '.' && c != '$'
  {
  }

  /** Nothing that means something around an encoded text. */
  predicate Plain(s: string) {
    '=' !in s && '\r' !in s && '\n' !in s && '.' !in s && '$' !in s
  }

  lemma {:induction false} EncodedIsClean(a: Alphabet, bs: seq<byte>)
    ensures AllSymbols(a, Encode(a, bs))
    ensures Plain(Encode(a, bs))
    ensures DropBreaks(Encode(a, bs)) == Encode(a, bs)
  {
    SymbolsRoundTrip(a, bs);
    var s := Encode(a, bs);
    DecodedAreSymbols(a, s);
    forall i | 0 <= i < |s| ensures s[i] != '=' && s[i] != '\r' && s[i] != '\n' && s[i] != '.' && s[i] != '$' {
      SymbolsAreClean(a, s[i]);
    }
    NoBreaks(s);
  }

  /** Encoding any bytes and decoding gives them back, with and without padding. */
  lemma {:induction false} RawRoundTrip(a: Alphabet, bs: seq<byte>)
    ensures DecodeRaw(a, Encode(a, bs)) == Some(bs)
  {
    EncodedIsClean(a, bs);
    SymbolsRoundTrip(a, bs);
  }

  /** Padding is recognised by what follows the symbols. */
  lemma Unpad(a: Alphabet, e: string, pad: string)
    requires Plain(e) && (|e| + |pad|) % 4 == 0
    requires pad == "" || pad == "=" || pad == "=="
    requires pad != "" ==> |e| >= 2
    ensures DecodePadded(a, e + pad) == DecodeSymbols(a, e)
  {
    hide DecodeSymbols, DropBreaks;
    var s := e + pad;
    NoBreaks(s);
    if pad == "==" {
      assert s[|s| - 2..] == "==" && s[..|s| - 2] == e;
    } else if pad == "=" {
      assert s[|s| - 2] == e[|e| - 1] != '=' && s[..|s| - 1] == e;
      assert s[|s| - 2..][0] != '=';
    } else if e != "" {
      assert s == e && s[|s| - 1] == e[|e| - 1] != '=' && s[|s| - 2..][1] == s[|s| - 1];
    }
  }

  lemma {:induction false} UnpadAny(a: Alphabet, bs: seq<byte>, e: string, pad: string)
    requires e == Encode(a, bs) && pad == Padding(|bs|) && Plain(e)
    requires (EncodedLength(|bs|) + |pad|) % 4 == 0 && (bs != [] ==> |e| >= 2)
    ensures DecodePadded(a, EncodePadded(a, bs)) == DecodeSymbols(a, e)
  {
    hide DecodePadded, Encode, DecodeSymbols, Padding, EncodedLength, Plain;
    Unpad(a, e, pad);
  }

  lemma {:induction false} PaddedRoundTrip(a: Alphabet, bs: seq<byte>)
    ensures DecodePadded(a, EncodePadded(a, bs)) == Some(bs)
  {
    hide DecodePadded, EncodePadded, Encode, DecodeSymbols, Padding, EncodedLength, Plain, AllSymbols;
    EncodedIsClean(a, bs);
    SymbolsRoundTrip(a, bs);
    PadLength(|bs|);
    UnpadAny(a, bs, Encode(a, bs), Padding(|bs|));
  }

  /** Symbols, and as many equals signs as fill up the last group. */
  ghost predicate PaddedWith(a: Alphabet, t: string, e: string, pad: string) {
    t == e + pad && AllSymbols(a, e) && |e| % 4 != 1 && (|e| + |pad|) % 4 == 0 && pad in ["", "=", "=="]
  }

  /** A padded text decodes exactly when, line breaks apart, it is symbols and then as many equals
      signs, none, one or two, as fill up its last group. */
  lemma {:induction false} PaddedDecodesExactly(a: Alphabet, s: string, t: string)
    requires t == DropBreaks(s)
    ensures DecodePadded(a, s).Some? <==> exists e, pad :: PaddedWith(a, t, e, pad)
  {
    hide DecodeFilled, PaddedWith;
    if DecodeFilled(a, t).Some? {
      var e, pad := FilledIsPadded(a, t);
    }
    if e, pad :| PaddedWith(a, t, e, pad) {
      PaddedIsDecoded(a, t, e, pad);
    }
  }

  lemma {:induction false} FilledIsPadded(a: Alphabet, t: string) returns (e: string, pad: string)
    requires DecodeFilled(a, t).Some?
    ensures PaddedWith(a, t, e, pad)
  {
    hide DecodeSymbols, AllSymbols;
    var n := if t != "" && t[|t| - 2..] == "==" then 2 else if t != "" && t[|t| - 1] == '=' then 1 else 0;
    e, pad := t[..|t| - n], t[|t| - n..];
    SymbolsDecode(a, e);
    assert n == 0 ==> e == t && pad == "";
    assert n == 1 ==> pad == [t[|t| - 1]] == "=";
    assert n == 2 ==> pad == "==";
    assert DecodeFilled(a, t) == DecodeSymbols(a, e);
    assert t == e + pad && |t| == |e| + |pad|;
  }

  lemma {:induction false} PaddedIsDecoded(a: Alphabet, t: string, e: string, pad: string)
    requires PaddedWith(a, t, e, pad)
    ensures DecodeFilled(a, t).Some?
  {
    SymbolsDecode(a, e);
    CutPadding(a, t, e, pad);
    assert pad == "" || pad == "=" || pad == "==";
    hide DecodeSymbols, AllSymbols, PaddedWith;
    if pad == "==" {
      assert DecodeFilled(a, t) == DecodeSymbols(a, e);
    } else if pad == "=" {
      assert DecodeFilled(a, t) == DecodeSymbols(a, e);
    } else {
      assert DecodeFilled(a, t) == DecodeSymbols(a, e);
    }
  }

  lemma CutPadding(a: Alphabet, t: string, e: string, pad: string)
    requires PaddedWith(a, t, e, pad)
    ensures |t| % 4 == 0
    ensures pad == "==" ==> t != "" && t[|t| - 2..] == "==" && t[..|t| - 2] == e
    ensures pad == "=" ==> t != "" && t[|t| - 2..] != "==" && t[|t| - 1] == '=' && t[..|t| - 1] == e
    ensures pad == "" ==> t == e && (t != "" ==> t[|t| - 2..] != "==" && t[|t| - 1] != '=')
  {
    if e != "" {
      assert IsSymbol(a, e[|e| - 1]);
      SymbolsAreClean(a, e[|e| - 1]);
      hide IsSymbol, AllSymbols;
      assert t[|e| - 1] != '=';
      assert pad == "" ==> t[|t| - 2..][1] == t[|t| - 1];
      assert pad == "=" ==> t[|t| - 2..][0] == t[|e| - 1];
    }
  }
}
