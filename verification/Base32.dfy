/** Base32 between hexadecimal strings and the alphabet of section 6 of RFC 4648: the two codecs, their
    loops over buffers, and how each undoes the other. */
module Base32 {

  import opened Numbers
  import opened Sequences

  type quintet = x: nat | x < 32

  datatype Result<+T> = Ok(value: T) | Err(error: Error)
  datatype Error =
    | OddLength | BadHex
    | BadLength | BadCharacter(index: int, c: char) | PaddingInside(index: int) | BadPadding(length: nat)

  // ---------------------------------------------------------------- characters

  function Symbol(v: quintet): char { if v < 26 then 'A' + v as char else '2' + (v - 26) as char }

  /** 64 for characters that are not in the alphabet; both cases are. */
  function Value(c: char): (v: nat)
    ensures v < 32 || v == 64
  {
    if 'A' <= c <= 'Z' then c as nat - 'A' as nat
    else if 'a' <= c <= 'z' then c as nat - 'a' as nat
    else if '2' <= c <= '7' then c as nat - '2' as nat + 26
    else 64
  }

  function UpperChar(c: char): char { if 'a' <= c <= 'z' then c - 'a' + 'A' else c }
  function LowerChar(c: char): char { if 'A' <= c <= 'Z' then c - 'A' + 'a' else c }

  function Upper(s: string): (r: string)
    ensures |r| == |s| && forall i :: 0 <= i < |s| ==> r[i] == UpperChar(s[i])
  {
    seq(|s|, i requires 0 <= i < |s| => UpperChar(s[i]))
  }

  function Lower(s: string): (r: string)
    ensures |r| == |s| && forall i :: 0 <= i < |s| ==> r[i] == LowerChar(s[i])
  {
    seq(|s|, i requires 0 <= i < |s| => LowerChar(s[i]))
  }

  predicate IsHex(c: char) { '0' <= c <= '9' || 'a' <= c <= 'f' || 'A' <= c <= 'F' }

  function Hex2Dec(c: char): (v: nat)
    ensures v < 16
  {
    if '0' <= c <= '9' then c as nat - '0' as nat
    else if 'a' <= c <= 'f' then c as nat - 'a' as nat + 10
    else if 'A' <= c <= 'F' then c as nat - 'A' as nat + 10
    else 0
  }

  function HexDigit(v: nat): char
    requires v < 16
  {
    if v < 10 then '0' + v as char else 'a' + (v - 10) as char
  }

  function HexByte(c: char, d: char): byte { 16 * Hex2Dec(c) + Hex2Dec(d) }

  /** Two characters a byte. */
  function FromHex(h: string): seq<byte> {
    if |h| < 2 then [] else [HexByte(h[0], h[1])] + FromHex(h[2..])
  }

  function ToHex(b: seq<byte>): string {
    if b == [] then "" else [HexDigit(b[0] / 16), HexDigit(b[0] % 16)] + ToHex(b[1..])
  }

  // ---------------------------------------------------------------- groups

  /** Five bytes as eight groups of five bits. */
  function Quintets(b: seq<byte>): (x: seq<quintet>)
    ensures |b| == 5 ==> |x| == 8
  {
    if |b| != 5 then []
    else
      [b[0] / 8, b[0] % 8 * 4 + b[1] / 64, b[1] / 2 % 32, b[1] % 2 * 16 + b[2] / 16,
       b[2] % 16 * 2 + b[3] / 128, b[3] / 4 % 32, b[3] % 4 * 8 + b[4] / 32, b[4] % 32]
  }

  function Octets(x: seq<quintet>): (b: seq<byte>)
    ensures |x| == 8 ==> |b| == 5
  {
    if |x| != 8 then []
    else
      var x: seq<nat> := x;
      [x[0] * 8 + x[1] / 4, x[1] % 4 * 64 + x[2] * 2 + x[3] / 16, x[3] % 16 * 16 + x[4] / 2,
       x[4] % 2 * 128 + x[5] * 4 + x[6] / 8, x[6] % 8 * 32 + x[7]]
  }

  /** The bits of whole groups, five at a time, and back. */
  function QuintetsOf(b: seq<byte>): (x: seq<quintet>)
    requires |b| % 5 == 0
    ensures 5 * |x| == 8 * |b|
  {
    ChunksLength(Quintets, 5, 8, |b| / 5, b);
    Chunks(Quintets, 5, b)
  }

  function OctetsOf(x: seq<quintet>): (b: seq<byte>)
    requires |x| % 8 == 0
    ensures 8 * |b| == 5 * |x|
  {
    ChunksLength(Octets, 8, 5, |x| / 8, x);
    Chunks(Octets, 8, x)
  }

  /** The bytes that the last group lacks. */
  function Missing(n: nat): (m: nat)
    ensures (n + m) % 5 == 0 && m < 5
  {
    if n % 5 == 0 then 0 else 5 - n % 5
  }

  /** How many symbols n bytes need: five bits each. */
  function Symbols(n: nat): nat { (8 * n + 4) / 5 }

  function Padding(n: nat): (p: string)
    ensures |p| == n && forall i :: 0 <= i < n ==> p[i] == '='
  {
    seq(n, i => '=')
  }

  function Text(x: seq<quintet>): (s: string)
    ensures |s| == |x| && forall i :: 0 <= i < |x| ==> s[i] == Symbol(x[i])
  {
    seq(|x|, i requires 0 <= i < |x| => Symbol(x[i]))
  }

  lemma SymbolsSplit(q: nat, r: nat)
    ensures Symbols(5 * q + r) == 8 * q + Symbols(r)
  {
    assert 8 * (5 * q + r) + 4 == 5 * (8 * q) + (8 * r + 4);
  }

  lemma MissingSplit(q: nat, r: nat)
    requires r < 5
    ensures Missing(5 * q + r) == if r == 0 then 0 else 5 - r
  {}

  lemma SymbolsFit(n: nat)
    ensures 5 * Symbols(n) <= 8 * (n + Missing(n)) && 8 * (n + Missing(n)) < 5 * Symbols(n) + 40
  {
    SymbolsSplit(n / 5, n % 5);
    MissingSplit(n / 5, n % 5);
  }

  /** RFC 4648, section 6: zeros fill the last group, '=' stands for the symbols without bits. */
  function Enc(b: seq<byte>): string {
    var x := QuintetsOf(b + Zeros(Missing(|b|)));
    SymbolsFit(|b|);
    Text(x[..Symbols(|b|)]) + Padding(|x| - Symbols(|b|))
  }

  function Encode(h: string): Result<string> {
    if |h| % 2 == 1 then Err(OddLength)
    else if exists c :: c in h && !IsHex(c) then Err(BadHex)
    else Ok(Enc(FromHex(h)))
  }

  datatype Read = Read(x: seq<quintet>, pad: nat)

  /** The inner loop: the characters of a group from index j on, given the padding before them. */
  function ReadGroup(g: string, j: nat, pad: nat): (r: Result<Read>)
    ensures r.Ok? ==> |r.value.x| == |g|
  {
    if g == "" then Ok(Read([], pad))
    else if g[0] == '=' then After([0], ReadGroup(g[1..], j + 1, pad + 1))
    else if pad > 0 then Err(PaddingInside(j - 1))
    else if Value(g[0]) == 64 then Err(BadCharacter(j, g[0]))
    else After([Value(g[0])], ReadGroup(g[1..], j + 1, pad))
  }

  function After(xs: seq<quintet>, r: Result<Read>): Result<Read> {
    if r.Err? then r else Ok(Read(xs + r.value.x, r.value.pad))
  }

  /** All groups, one after the other. */
  function Dec(x: string, pad: nat): (d: Result<Read>)
    requires |x| % 8 == 0
    ensures d.Ok? ==> |d.value.x| == |x|
  {
    if x == "" then Ok(Read([], pad))
    else
      match ReadGroup(x[..8], 0, pad)
      case Err(e) => Err(e)
      case Ok(r) => After(r.x, Dec(x[8..], r.pad))
  }

  /** The bytes that the padding takes back. */
  function Dropped(pad: nat): nat { if pad == 1 then 1 else if pad == 3 then 2 else if pad == 4 then 3 else if pad == 6 then 4 else 0 }

  predicate GoodPadding(pad: nat) { pad == 0 || pad == 1 || pad == 3 || pad == 4 || pad == 6 }

  function DecodeBytes(x: string): Result<seq<byte>> {
    if |x| % 8 != 0 then Err(BadLength)
    else
      match Dec(x, 0)
      case Err(e) => Err(e)
      case Ok(d) => if GoodPadding(d.pad) then Ok(Shortened(OctetsOf(d.x), Dropped(d.pad))) else Err(BadPadding(d.pad))
  }

  /** Without the last d bytes. */
  function Shortened(b: seq<byte>, d: nat): seq<byte> { if d <= |b| then b[..|b| - d] else [] }

  function Decode(x: string): Result<string> {
    match DecodeBytes(x)
    case Err(e) => Err(e)
    case Ok(b) => Ok(ToHex(b))
  }

  // ---------------------------------------------------------------- the tables

  lemma SymbolValue(v: quintet)
    ensures Value(Symbol(v)) == v && Symbol(v) != '='
  {}

  lemma ValueSymbol(c: char)
    requires Value(c) < 32
    ensures Symbol(Value(c)) == UpperChar(c) && c != '='
  {}

  lemma {:induction false} HexRoundTrip(b: seq<byte>)
    ensures FromHex(ToHex(b)) == b && |ToHex(b)| == 2 * |b|
    ensures forall c :: c in ToHex(b) ==> IsHex(c)
  {
    if b != [] {
      HexRoundTrip(b[1..]);
      var h := ToHex(b);
      assert h[2..] == ToHex(b[1..]);
      assert Hex2Dec(h[0]) == b[0] / 16 && Hex2Dec(h[1]) == b[0] % 16;
      assert b == [b[0]] + b[1..];
    }
  }

  lemma {:induction false} FromHexRoundTrip(h: string)
    requires |h| % 2 == 0 && forall c :: c in h ==> IsHex(c)
    ensures ToHex(FromHex(h)) == Lower(h) && 2 * |FromHex(h)| == |h|
  {
    if h == "" {
      assert Lower(h) == "";
    } else {
      assert h[0] in h && h[1] in h;
      FromHexRoundTrip(h[2..]);
      HexPair(h[0], h[1]);
      assert FromHex(h)[1..] == FromHex(h[2..]);
      assert Lower(h) == [LowerChar(h[0]), LowerChar(h[1])] + Lower(h[2..]);
    }
  }

  lemma HexPair(c: char, d: char)
    requires IsHex(c) && IsHex(d)
    ensures HexDigit(HexByte(c, d) / 16) == LowerChar(c) && HexDigit(HexByte(c, d) % 16) == LowerChar(d)
  {}

  // ---------------------------------------------------------------- one group

  lemma Octet0(a: byte, b: byte)
    ensures a / 8 * 8 + (a % 8 * 4 + b / 64) / 4 == a
  {}

  lemma Octet1(a: byte, b: byte, c: byte)
    ensures (a % 8 * 4 + b / 64) % 4 * 64 + b / 2 % 32 * 2 + (b % 2 * 16 + c / 16) / 16 == b
  {
    assert (a % 8 * 4 + b / 64) % 4 == b / 64 && (b % 2 * 16 + c / 16) / 16 == b % 2;
  }

  lemma Octet2(b: byte, c: byte, d: byte)
    ensures (b % 2 * 16 + c / 16) % 16 * 16 + (c % 16 * 2 + d / 128) / 2 == c
  {}

  lemma Octet3(c: byte, d: byte, e: byte)
    ensures (c % 16 * 2 + d / 128) % 2 * 128 + d / 4 % 32 * 4 + (d % 4 * 8 + e / 32) / 8 == d
  {
    assert (c % 16 * 2 + d / 128) % 2 == d / 128 && (d % 4 * 8 + e / 32) / 8 == d % 4;
  }

  lemma Octet4(d: byte, e: byte)
    ensures (d % 4 * 8 + e / 32) % 8 * 32 + e % 32 == e
  {}

  lemma FirstOctets(b: seq<byte>)
    requires |b| == 5
    ensures var o := Octets(Quintets(b)); o[0] == b[0] && o[1] == b[1] && o[2] == b[2]
  {
    Octet0(b[0], b[1]);
    Octet1(b[0], b[1], b[2]);
    Octet2(b[1], b[2], b[3]);
  }

  lemma LastOctets(b: seq<byte>)
    requires |b| == 5
    ensures var o := Octets(Quintets(b)); o[3] == b[3] && o[4] == b[4]
  {
    Octet3(b[2], b[3], b[4]);
    Octet4(b[3], b[4]);
  }

  lemma OctetsOfQuintets(b: seq<byte>)
    requires |b| == 5
    ensures Octets(Quintets(b)) == b
  {
    FirstOctets(b);
    LastOctets(b);
  }

  lemma Quintet01(x0: quintet, x1: quintet, x2: quintet, x3: quintet)
    ensures (x0 * 8 + x1 / 4) / 8 == x0
    ensures (x0 * 8 + x1 / 4) % 8 * 4 + (x1 % 4 * 64 + x2 * 2 + x3 / 16) / 64 == x1
  {
    assert (x0 * 8 + x1 / 4) % 8 == x1 / 4 && (x1 % 4 * 64 + x2 * 2 + x3 / 16) / 64 == x1 % 4;
  }

  lemma Quintet23(x1: quintet, x2: quintet, x3: quintet, x4: quintet)
    ensures (x1 % 4 * 64 + x2 * 2 + x3 / 16) / 2 % 32 == x2
    ensures (x1 % 4 * 64 + x2 * 2 + x3 / 16) % 2 * 16 + (x3 % 16 * 16 + x4 / 2) / 16 == x3
  {
    assert (x1 % 4 * 64 + x2 * 2 + x3 / 16) / 2 == x1 % 4 * 32 + x2;
    assert (x1 % 4 * 64 + x2 * 2 + x3 / 16) % 2 == x3 / 16 && (x3 % 16 * 16 + x4 / 2) / 16 == x3 % 16;
  }

  lemma Quintet45(x3: quintet, x4: quintet, x5: quintet, x6: quintet)
    ensures (x3 % 16 * 16 + x4 / 2) % 16 * 2 + (x4 % 2 * 128 + x5 * 4 + x6 / 8) / 128 == x4
    ensures (x4 % 2 * 128 + x5 * 4 + x6 / 8) / 4 % 32 == x5
  {
    assert (x3 % 16 * 16 + x4 / 2) % 16 == x4 / 2 && (x4 % 2 * 128 + x5 * 4 + x6 / 8) / 128 == x4 % 2;
    assert (x4 % 2 * 128 + x5 * 4 + x6 / 8) / 4 == x4 % 2 * 32 + x5;
  }

  lemma Quintet67(x4: quintet, x5: quintet, x6: quintet, x7: quintet)
    ensures (x4 % 2 * 128 + x5 * 4 + x6 / 8) % 4 * 8 + (x6 % 8 * 32 + x7) / 32 == x6
    ensures (x6 % 8 * 32 + x7) % 32 == x7
  {
    assert (x4 % 2 * 128 + x5 * 4 + x6 / 8) % 4 == x6 / 8 && (x6 % 8 * 32 + x7) / 32 == x6 % 8;
  }

  lemma QuintetsOfOctets(x: seq<quintet>)
    requires |x| == 8
    ensures Quintets(Octets(x)) == x
  {
    FirstQuintets(x);
    LastQuintets(x);
  }

  lemma FirstQuintets(x: seq<quintet>)
    requires |x| == 8
    ensures var q := Quintets(Octets(x)); q[0] == x[0] && q[1] == x[1] && q[2] == x[2] && q[3] == x[3]
  {
    Quintet01(x[0], x[1], x[2], x[3]);
    Quintet23(x[1], x[2], x[3], x[4]);
  }

  lemma LastQuintets(x: seq<quintet>)
    requires |x| == 8
    ensures var q := Quintets(Octets(x)); q[4] == x[4] && q[5] == x[5] && q[6] == x[6] && q[7] == x[7]
  {
    Quintet45(x[3], x[4], x[5], x[6]);
    Quintet67(x[4], x[5], x[6], x[7]);
  }

  lemma AllOctets(b: seq<byte>)
    requires |b| % 5 == 0
    ensures OctetsOf(QuintetsOf(b)) == b
  {
    forall g: seq<byte> | |g| == 5 ensures Octets(Quintets(g)) == g {
      OctetsOfQuintets(g);
    }
    ChunksUndo(Quintets, Octets, 5, 8, |b| / 5, b);
  }

  lemma AllQuintets(x: seq<quintet>)
    requires |x| % 8 == 0
    ensures QuintetsOf(OctetsOf(x)) == x
  {
    forall g: seq<quintet> | |g| == 8 ensures Quintets(Octets(g)) == g {
      QuintetsOfOctets(g);
    }
    ChunksUndo(Octets, Quintets, 8, 5, |x| / 8, x);
  }

  lemma QuintetsAppend(b: seq<byte>, c: seq<byte>)
    requires |b| % 5 == 0 && |c| % 5 == 0
    ensures QuintetsOf(b + c) == QuintetsOf(b) + QuintetsOf(c)
  {
    ChunksAppend(Quintets, 5, |b| / 5, b, c);
  }

  lemma OctetsAppend(x: seq<quintet>, y: seq<quintet>)
    requires |x| % 8 == 0 && |y| % 8 == 0
    ensures OctetsOf(x + y) == OctetsOf(x) + OctetsOf(y)
  {
    ChunksAppend(Octets, 8, |x| / 8, x, y);
  }

  lemma OneQuintets(b: seq<byte>)
    requires |b| == 5
    ensures QuintetsOf(b) == Quintets(b)
  {
    assert b[..5] == b && b[5..] == [] && Quintets(b) + [] == Quintets(b);
  }

  lemma OneOctets(x: seq<quintet>)
    requires |x| == 8
    ensures OctetsOf(x) == Octets(x)
  {
    assert x[..8] == x && x[8..] == [] && Octets(x) + [] == Octets(x);
  }

  // ---------------------------------------------------------------- symbols and padding

  /** n characters of the alphabet and then nothing but padding. */
  predicate Shaped(g: string, n: nat) {
    n <= |g| && (forall i :: 0 <= i < n ==> Value(g[i]) < 32) && (forall i :: n <= i < |g| ==> g[i] == '=')
  }

  function Values(g: string, n: nat): (x: seq<quintet>)
    requires Shaped(g, n)
    ensures |x| == |g|
    ensures forall i :: 0 <= i < |g| ==> x[i] == if i < n then Value(g[i]) else 0
  {
    seq(|g|, i requires 0 <= i < |g| => if i < n then Value(g[i]) else 0)
  }

  lemma ShapedTail(g: string, n: nat)
    requires Shaped(g, n) && g != ""
    ensures Shaped(g[1..], if n > 0 then n - 1 else 0)
    ensures Values(g, n) == [if n > 0 then Value(g[0]) else 0] + Values(g[1..], if n > 0 then n - 1 else 0)
  {}

  lemma {:induction false} ShapedIsRead(g: string, j: nat, pad: nat, n: nat)
    requires Shaped(g, n) && (pad > 0 ==> n == 0)
    ensures ReadGroup(g, j, pad) == Ok(Read(Values(g, n), pad + |g| - n))
  {
    if g != "" {
      ShapedTail(g, n);
      if n == 0 {
        ShapedIsRead(g[1..], j + 1, pad + 1, 0);
      } else {
        ValueSymbol(g[0]);
        ShapedIsRead(g[1..], j + 1, pad, n - 1);
      }
    } else {
      assert Values(g, n) == [];
    }
  }

  lemma {:induction false} ReadIsShaped(g: string, j: nat, pad: nat) returns (n: nat)
    requires ReadGroup(g, j, pad).Ok?
    ensures Shaped(g, n) && (pad > 0 ==> n == 0)
  {
    n := 0;
    if g != "" {
      if g[0] == '=' {
        n := ReadIsShaped(g[1..], j + 1, pad + 1);
      } else {
        n := ReadIsShaped(g[1..], j + 1, pad);
        n := n + 1;
      }
      assert g == [g[0]] + g[1..];
    }
  }

  lemma ShapedSplit(x: string, n: nat)
    requires Shaped(x, n) && |x| >= 8
    ensures var k := if n < 8 then n else 8;
            Shaped(x[..8], k) && Shaped(x[8..], n - k)
            && Values(x, n)[..8] == Values(x[..8], k) && Values(x, n)[8..] == Values(x[8..], n - k)
  {}

  lemma {:induction false} ShapedIsDecoded(x: string, pad: nat, n: nat)
    requires |x| % 8 == 0 && Shaped(x, n) && (pad > 0 ==> n == 0)
    ensures Dec(x, pad) == Ok(Read(Values(x, n), pad + |x| - n))
  {
    if x == "" {
      assert Values(x, n) == [];
    } else {
      ShapedSplit(x, n);
      var k := if n < 8 then n else 8;
      ShapedIsRead(x[..8], 0, pad, k);
      ShapedIsDecoded(x[8..], pad + 8 - k, n - k);
      assert Values(x, n) == Values(x, n)[..8] + Values(x, n)[8..];
    }
  }

  lemma {:induction false} DecodedIsShaped(x: string, pad: nat) returns (n: nat)
    requires |x| % 8 == 0 && Dec(x, pad).Ok?
    ensures Shaped(x, n) && (pad > 0 ==> n == 0)
  {
    n := 0;
    if x != "" {
      var k := ReadIsShaped(x[..8], 0, pad);
      ShapedIsRead(x[..8], 0, pad, k);
      var m := DecodedIsShaped(x[8..], pad + 8 - k);
      n := k + m;
      assert x == x[..8] + x[8..];
    }
  }

  /** What the decoder accepts: whole groups of symbols, then 0, 1, 3, 4 or 6 padding characters. */
  predicate Accepted(x: string, n: nat) { |x| % 8 == 0 && Shaped(x, n) && GoodPadding(|x| - n) }

  lemma DecodesExactly(x: string)
    ensures Decode(x).Ok? <==> exists n :: Accepted(x, n)
  {
    if n :| Accepted(x, n) {
      ShapedIsDecoded(x, 0, n);
    }
    if Decode(x).Ok? {
      var n := DecodedIsShaped(x, 0);
      ShapedIsDecoded(x, 0, n);
      assert Accepted(x, n);
    }
  }

  lemma DecodedBytes(x: string, n: nat)
    requires Accepted(x, n)
    ensures DecodeBytes(x) == Ok(Shortened(OctetsOf(Values(x, n)), Dropped(|x| - n)))
    ensures x != "" ==> Dropped(|x| - n) <= |OctetsOf(Values(x, n))|
    ensures x == "" ==> n == 0
  {
    ShapedIsDecoded(x, 0, n);
  }

  // ---------------------------------------------------------------- decoding what was encoded

  /** The quintets behind the last bit of n bytes are zero. */
  lemma NoBits(b: seq<byte>, n: nat, i: nat)
    requires |b| == 5 && n <= 5 && Symbols(n) <= i < 8 && forall k :: n <= k < 5 ==> b[k] == 0
    ensures Quintets(b)[i] == 0
  {}

  lemma NoQuintets(b: seq<byte>, n: nat, i: nat)
    requires |b| % 5 == 0 && n <= |b| < n + 5 && forall k :: n <= k < |b| ==> b[k] == 0
    requires Symbols(n) <= i < |QuintetsOf(b)|
    ensures QuintetsOf(b)[i] == 0
  {
    if b != [] {
      var g := |b| / 5 - 1;
      var m := 5 * g;
      assert |b| == m + 5;
      SymbolsSplit(g, n - m);
      InLastGroup(b[..m], b[m..], i - 8 * g);
      assert b == b[..m] + b[m..];
      NoBits(b[m..], n - m, i - 8 * g);
    }
  }

  lemma InLastGroup(a: seq<byte>, c: seq<byte>, i: nat)
    requires |a| % 5 == 0 && |c| == 5 && i < 8
    ensures QuintetsOf(a + c)[|QuintetsOf(a)| + i] == Quintets(c)[i]
  {
    QuintetsAppend(a, c);
    OneQuintets(c);
  }

  lemma EncSize(b: seq<byte>)
    ensures |QuintetsOf(b + Zeros(Missing(|b|)))| == |Enc(b)| && Symbols(|b|) <= |Enc(b)|
  {
    SymbolsFit(|b|);
  }

  lemma EncAt(b: seq<byte>, i: nat)
    requires i < |Enc(b)| == |QuintetsOf(b + Zeros(Missing(|b|)))|
    ensures var x, n := QuintetsOf(b + Zeros(Missing(|b|))), Symbols(|b|);
            if i < n then Enc(b)[i] == Symbol(x[i]) && Value(Enc(b)[i]) == x[i] else Enc(b)[i] == '=' && x[i] == 0
  {
    SymbolsFit(|b|);
    if i >= Symbols(|b|) {
      NoQuintets(b + Zeros(Missing(|b|)), |b|, i);
    } else {
      SymbolValue(QuintetsOf(b + Zeros(Missing(|b|)))[i]);
    }
  }

  lemma EncLength(b: seq<byte>)
    ensures var pad := |Enc(b)| - Symbols(|b|);
            pad >= 0 && GoodPadding(pad) && Dropped(pad) == Missing(|b|) && |Enc(b)| == 8 * ((|b| + 4) / 5)
  {
    var q, r := |b| / 5, |b| % 5;
    SymbolsFit(|b|);
    SymbolsSplit(q, r);
    MissingSplit(q, r);
    assert |b| == 5 * q + r;
  }

  lemma ShapedBy(e: string, n: nat, x: seq<quintet>)
    requires |x| == |e| && n <= |e|
    requires forall i :: 0 <= i < |e| ==> if i < n then Value(e[i]) == x[i] else e[i] == '=' && x[i] == 0
    ensures Shaped(e, n) && Values(e, n) == x
  {}

  /** What Enc writes has the shape that the decoder accepts. */
  lemma EncAccepted(b: seq<byte>)
    ensures var e, n := Enc(b), Symbols(|b|);
            Accepted(e, n) && Values(e, n) == QuintetsOf(b + Zeros(Missing(|b|))) && Dropped(|e| - n) == Missing(|b|)
  {
    var e, n, x := Enc(b), Symbols(|b|), QuintetsOf(b + Zeros(Missing(|b|)));
    EncLength(b);
    EncSize(b);
    forall i | 0 <= i < |e| ensures if i < n then Value(e[i]) == x[i] else e[i] == '=' && x[i] == 0 {
      EncAt(b, i);
    }
    ShapedBy(e, n, x);
  }

  lemma DecodeOfEnc(b: seq<byte>)
    ensures DecodeBytes(Enc(b)) == Ok(b)
  {
    EncAccepted(b);
    DecodedBytes(Enc(b), Symbols(|b|));
    AllOctets(b + Zeros(Missing(|b|)));
    assert Shortened(b + Zeros(Missing(|b|)), Missing(|b|)) == b;
  }

  /** Decoding undoes encoding: the hexadecimal digits come back in lower case. */
  lemma DecodeOfEncode(h: string)
    requires |h| % 2 == 0 && forall c :: c in h ==> IsHex(c)
    ensures Encode(h).Ok? && |Encode(h).value| == 8 * ((|h| / 2 + 4) / 5)
    ensures Decode(Encode(h).value) == Ok(Lower(h))
  {
    FromHexRoundTrip(h);
    EncLength(FromHex(h));
    DecodeOfEnc(FromHex(h));
  }

  // ---------------------------------------------------------------- encoding what was decoded

  /** The bits of the last symbol that no byte takes. */
  function Spare(pad: nat): nat { if pad == 6 then 4 else if pad == 4 then 16 else if pad == 3 then 2 else if pad == 1 then 8 else 1 }

  /** They are zero. */
  predicate Canonical(x: string, n: nat)
    requires Accepted(x, n)
  {
    |x| == n || Value(x[n - 1]) % Spare(|x| - n) == 0
  }

  /** The bytes that are dropped are zero exactly when the spare bits are. */
  lemma LastGroup(v: seq<quintet>, n: nat)
    requires |v| == 8 && 0 < n < 8 && GoodPadding(8 - n) && forall i :: n <= i < 8 ==> v[i] == 0
    ensures (forall k :: 5 - Dropped(8 - n) <= k < 5 ==> Octets(v)[k] == 0) <==> v[n - 1] % Spare(8 - n) == 0
  {
    var o: seq<nat>, w: seq<nat> := Octets(v), v;
    if n == 2 {
      assert o[1] == w[1] % 4 * 64 && o[2] == 0 && o[3] == 0 && o[4] == 0;
    } else if n == 4 {
      assert o[2] == w[3] % 16 * 16 && o[3] == 0 && o[4] == 0;
    } else if n == 5 {
      assert o[3] == w[4] % 2 * 128 && o[4] == 0;
    } else {
      assert o[4] == w[6] % 8 * 32;
    }
  }

  lemma LastFive(v: seq<quintet>)
    requires |v| % 8 == 0 && v != []
    ensures var b := OctetsOf(v); |b| >= 5 && b[|b| - 5..] == Octets(v[|v| - 8..])
  {
    var n := |v| - 8;
    assert v == v[..n] + v[n..];
    OctetsAppend(v[..n], v[n..]);
    OneOctets(v[n..]);
  }

  predicate EndsInZeros(b: seq<byte>, d: nat) { d <= |b| && forall k :: |b| - d <= k < |b| ==> b[k] == 0 }

  lemma DroppedAreZero(x: string, n: nat)
    requires Accepted(x, n) && n < |x|
    ensures EndsInZeros(OctetsOf(Values(x, n)), Dropped(|x| - n)) <==> Canonical(x, n)
  {
    var v := Values(x, n);
    var b, last, m := OctetsOf(v), v[|v| - 8..], n - (|x| - 8);
    LastFive(v);
    LastGroup(last, m);
    assert last[m - 1] == v[n - 1] == Value(x[n - 1]);
    forall k | 0 <= k < 5 ensures b[|b| - 5 + k] == Octets(last)[k] {
      assert b[|b| - 5..][k] == b[|b| - 5 + k];
    }
    if EndsInZeros(b, Dropped(|x| - n)) {
      forall k | 5 - Dropped(8 - m) <= k < 5 ensures Octets(last)[k] == 0 {}
    }
    if Canonical(x, n) {
      forall k | |b| - Dropped(|x| - n) <= k < |b| ensures b[k] == 0 {
        assert b[k] == Octets(last)[k - (|b| - 5)];
      }
    }
  }

  lemma Refilled(b: seq<byte>, d: nat)
    requires d <= |b|
    ensures Shortened(b, d) + Zeros(d) == b <==> EndsInZeros(b, d)
  {
    var c := Shortened(b, d) + Zeros(d);
    if EndsInZeros(b, d) {
      assert c == b;
    }
    if c == b {
      forall k | |b| - d <= k < |b| ensures b[k] == 0 {
        assert c[k] == Zeros(d)[k - (|b| - d)];
      }
    }
  }

  /** Two texts with the same padding agree when their quintets do. */
  lemma SameText(b: seq<byte>, x: string, n: nat)
    requires Accepted(x, n) && Symbols(|b|) == n && |Enc(b)| == |x|
    ensures Enc(b) == Upper(x) <==> QuintetsOf(b + Zeros(Missing(|b|))) == Values(x, n)
  {
    var e, q, v := Enc(b), QuintetsOf(b + Zeros(Missing(|b|))), Values(x, n);
    EncAccepted(b);
    forall i | 0 <= i < |x| ensures e[i] == Upper(x)[i] <==> q[i] == v[i] {
      if i < n {
        ValueSymbol(x[i]);
        SymbolValue(v[i]);
        SymbolValue(q[i]);
      }
    }
    if q == v {
      assert e == Upper(x);
    }
    if e == Upper(x) {
      assert q == v;
    }
  }

  lemma SizesAgree(x: string, n: nat)
    requires Accepted(x, n) && x != ""
    ensures var m, d := 5 * |x| / 8, Dropped(|x| - n);
            d <= m && Missing(m - d) == d && Symbols(m - d) == n && 8 * ((m - d + 4) / 5) == |x|
  {
    var q, d := |x| / 8, Dropped(|x| - n);
    assert |x| == 8 * q;
    assert 5 * |x| / 8 - d == if d == 0 then 5 * q + 0 else 5 * (q - 1) + (5 - d);
    if d == 0 {
      SymbolsSplit(q, 0);
      MissingSplit(q, 0);
    } else {
      SymbolsSplit(q - 1, 5 - d);
      MissingSplit(q - 1, 5 - d);
    }
  }

  lemma FilledAgain(x: string, n: nat, b: seq<byte>)
    requires Accepted(x, n) && b == Shortened(OctetsOf(Values(x, n)), Dropped(|x| - n)) && |b| + Missing(|b|) == 5 * |x| / 8
    requires Missing(|b|) == Dropped(|x| - n) <= |OctetsOf(Values(x, n))|
    ensures QuintetsOf(b + Zeros(Missing(|b|))) == Values(x, n) <==> EndsInZeros(OctetsOf(Values(x, n)), Missing(|b|))
  {
    AllOctets(b + Zeros(Missing(|b|)));
    AllQuintets(Values(x, n));
    Refilled(OctetsOf(Values(x, n)), Missing(|b|));
  }

  lemma EncOfDec(x: string, n: nat)
    requires Accepted(x, n) && x != ""
    ensures DecodeBytes(x).Ok? && (Enc(DecodeBytes(x).value) == Upper(x) <==> Canonical(x, n))
  {
    var b := Shortened(OctetsOf(Values(x, n)), Dropped(|x| - n));
    DecodedBytes(x, n);
    SizesAgree(x, n);
    EncLength(b);
    SameText(b, x, n);
    FilledAgain(x, n, b);
    if n < |x| {
      DroppedAreZero(x, n);
    }
  }

  lemma EmptyCodec(x: string)
    requires x == ""
    ensures DecodeBytes(x) == Ok([]) && Enc([]) == Upper(x)
  {}

  lemma EncodeOfHex(b: seq<byte>)
    ensures Encode(ToHex(b)) == Ok(Enc(b))
  {
    HexRoundTrip(b);
  }

  /** Encoding undoes decoding up to case exactly on canonical input. */
  lemma EncodeOfDecode(x: string, n: nat)
    requires Accepted(x, n)
    ensures Decode(x).Ok? && (Encode(Decode(x).value) == Ok(Upper(x)) <==> Canonical(x, n))
  {
    if x == "" {
      EmptyCodec(x);
    } else {
      EncOfDec(x, n);
    }
    EncodeOfHex(DecodeBytes(x).value);
  }

  // ---------------------------------------------------------------- the encoder

  /** Base32EncodeCmd: the checks, the conversion from hexadecimal, and the encoding. */
  method Base32Encode(digest: string) returns (r: Result<string>)
    ensures r == Encode(digest)
  {
    if |digest| % 2 == 1 {
      return Err(OddLength);
    }
    var i := 0;
    while i < |digest|
      invariant i <= |digest| && forall k :: 0 <= k < i ==> IsHex(digest[k])
    {
      if !IsHex(digest[i]) {
        assert digest[i] in digest;
        return Err(BadHex);
      }
      i := i + 1;
    }
    var buf := HexToBytes(digest);
    var out := EncodeBuffer(buf);
    r := Ok(out[..]);
  }

  method HexToBytes(digest: string) returns (buf: array<byte>)
    requires |digest| % 2 == 0
    ensures fresh(buf) && buf[..] == FromHex(digest)
  {
    HexLength(digest);
    buf := new byte[|digest| / 2](i => 0);
    var i := 0;
    assert digest[0..] == digest && buf[..0] == [];
    while i < buf.Length
      invariant i <= buf.Length && buf[..i] + FromHex(digest[2 * i..]) == FromHex(digest)
    {
      ghost var before := buf[..i];
      PairStep(digest, i, before);
      buf[i] := HexByte(digest[i + i], digest[i + i + 1]);
      assert buf[..i + 1] == before + [buf[i]];
      i := i + 1;
    }
    assert buf[..i] == buf[..] && FromHex(digest[2 * i..]) == [];
  }

  lemma PairStep(h: string, i: nat, before: seq<byte>)
    requires 2 * i + 1 < |h|
    ensures before + FromHex(h[2 * i..]) == before + [HexByte(h[2 * i], h[2 * i + 1])] + FromHex(h[2 * (i + 1)..])
  {
    assert h[2 * i..][2..] == h[2 * (i + 1)..];
  }

  lemma {:induction false} HexLength(h: string)
    requires |h| % 2 == 0
    ensures 2 * |FromHex(h)| == |h|
  {
    if h != "" {
      HexLength(h[2..]);
    }
  }

  /** Writes characters at the cursor. */
  method Put(out: array<char>, at: nat, s: string) returns (end: nat)
    requires at + |s| <= out.Length
    modifies out
    ensures end == at + |s| && out[..end] == old(out[..at]) + s
  {
    forall i | 0 <= i < |s| {
      out[at + i] := s[i];
    }
    end := at + |s|;
  }

  /** The whole groups and the partial group at the end; the cursor never leaves the output. */
  method EncodeBuffer(buf: array<byte>) returns (out: array<char>)
    ensures fresh(out) && out[..] == Enc(buf[..])
  {
    out := new char[(buf.Length + 4) / 5 * 8];
    var g := WholeGroups(buf, out);
    GroupFits(buf.Length, g);
    if 5 * g < buf.Length {
      var s := Partial(buf, 5 * g);
      LastPart(buf[..], 5 * g, s);
      var end := Put(out, 8 * g, s);
      assert out[..end] == out[..];
    } else {
      NoPart(buf[..], 5 * g);
      assert out[..8 * g] == out[..];
    }
  }

  /** The loop over whole groups: at and p advance by eight characters and five bytes. */
  method WholeGroups(buf: array<byte>, out: array<char>) returns (g: nat)
    requires out.Length == (buf.Length + 4) / 5 * 8
    modifies out
    ensures 5 * g <= buf.Length < 5 * g + 5 && 8 * g <= out.Length
    ensures out[..8 * g] == Text(QuintetsOf(buf[..5 * g]))
  {
    var at, p := 0, 0;
    g := 0;
    ghost var done := "";
    NoText(buf[..0]);
    while buf.Length - p >= 5
      invariant p == 5 * g <= buf.Length && at == 8 * g <= out.Length
      invariant out[..at] == done == Text(QuintetsOf(buf[..p]))
    {
      GroupFits(buf.Length, g);
      at := PutGroup(out, at, buf, p, done);
      done := MoreText(buf[..], p, done);
      p := p + 5;
      g := g + 1;
    }
  }

  lemma NoText(b: seq<byte>)
    requires b == []
    ensures Text(QuintetsOf(b)) == ""
  {}

  lemma MoreText(b: seq<byte>, p: nat, done: string) returns (more: string)
    requires p % 5 == 0 && p + 5 <= |b| && done == Text(QuintetsOf(b[..p]))
    ensures more == done + Text(Quintets(b[p..p + 5])) == Text(QuintetsOf(b[..p + 5]))
  {
    QuintetsAppend(b[..p], b[p..p + 5]);
    OneQuintets(b[p..p + 5]);
    assert b[..p] + b[p..p + 5] == b[..p + 5];
    more := done + Text(Quintets(b[p..p + 5]));
  }

  lemma GroupFits(n: nat, g: nat)
    requires 5 * g <= n
    ensures n - 5 * g >= 5 ==> 8 * g + 8 <= (n + 4) / 5 * 8
    ensures 0 < n - 5 * g < 5 ==> 8 * g + 8 == (n + 4) / 5 * 8
    ensures n == 5 * g ==> 8 * g == (n + 4) / 5 * 8
  {}

  /** The eight characters of a whole group, behind those before it. */
  method PutGroup(out: array<char>, at: nat, buf: array<byte>, p: nat, ghost done: string) returns (end: nat)
    requires at + 8 <= out.Length && p + 5 <= buf.Length && out[..at] == done
    modifies out
    ensures end == at + 8 && out[..end] == done + Text(Quintets(buf[p..p + 5]))
  {
    var b := buf[p..p + 5];
    end := Put(out, at, Text(
      [b[0] / 8, b[0] % 8 * 4 + b[1] / 64, b[1] / 2 % 32, b[1] % 2 * 16 + b[2] / 16,
       b[2] % 16 * 2 + b[3] / 128, b[3] / 4 % 32, b[3] % 4 * 8 + b[4] / 32, b[4] % 32]));
  }

  /** The cases for one to four bytes at the end. */
  method Partial(buf: array<byte>, p: nat) returns (s: string)
    requires p < buf.Length < p + 5
    ensures s == PartText(buf[p..])
  {
    var b, n := buf[p..], buf.Length - p;
    if n == 1 {
      s := Text([b[0] / 8, b[0] % 8 * 4]) + "======";
      Part1(b);
    } else if n == 2 {
      s := Text([b[0] / 8, b[0] % 8 * 4 + b[1] / 64, b[1] / 2 % 32, b[1] % 2 * 16]) + "====";
      Part2(b);
    } else if n == 3 {
      s := Text([b[0] / 8, b[0] % 8 * 4 + b[1] / 64, b[1] / 2 % 32, b[1] % 2 * 16 + b[2] / 16, b[2] % 16 * 2]) + "===";
      Part3(b);
    } else {
      s := Text([b[0] / 8, b[0] % 8 * 4 + b[1] / 64, b[1] / 2 % 32, b[1] % 2 * 16 + b[2] / 16,
                 b[2] % 16 * 2 + b[3] / 128, b[3] / 4 % 32, b[3] % 4 * 8]) + "=";
      Part4(b);
    }
  }

  ghost function PartText(b: seq<byte>): string
    requires 1 <= |b| <= 4
  {
    Text(Quintets(b + Zeros(5 - |b|))[..Symbols(|b|)]) + Padding(8 - Symbols(|b|))
  }

  lemma PartIs(b: seq<byte>, x: seq<quintet>, pad: string)
    requires 1 <= |b| <= 4 && |x| == Symbols(|b|) && pad == Padding(8 - |x|)
    requires x == Quintets(b + Zeros(5 - |b|))[..|x|]
    ensures Text(x) + pad == PartText(b)
  {}

  lemma Part1(b: seq<byte>)
    requires |b| == 1
    ensures Text([b[0] / 8, b[0] % 8 * 4]) + "======" == PartText(b)
  {
    PartIs(b, [b[0] / 8, b[0] % 8 * 4], "======");
  }

  lemma Part2(b: seq<byte>)
    requires |b| == 2
    ensures Text([b[0] / 8, b[0] % 8 * 4 + b[1] / 64, b[1] / 2 % 32, b[1] % 2 * 16]) + "====" == PartText(b)
  {
    PartIs(b, [b[0] / 8, b[0] % 8 * 4 + b[1] / 64, b[1] / 2 % 32, b[1] % 2 * 16], "====");
  }

  lemma Part3(b: seq<byte>)
    requires |b| == 3
    ensures Text([b[0] / 8, b[0] % 8 * 4 + b[1] / 64, b[1] / 2 % 32, b[1] % 2 * 16 + b[2] / 16, b[2] % 16 * 2])
            + "===" == PartText(b)
  {
    PartIs(b, [b[0] / 8, b[0] % 8 * 4 + b[1] / 64, b[1] / 2 % 32, b[1] % 2 * 16 + b[2] / 16, b[2] % 16 * 2], "===");
  }

  lemma Part4(b: seq<byte>)
    requires |b| == 4
    ensures Text([b[0] / 8, b[0] % 8 * 4 + b[1] / 64, b[1] / 2 % 32, b[1] % 2 * 16 + b[2] / 16,
                  b[2] % 16 * 2 + b[3] / 128, b[3] / 4 % 32, b[3] % 4 * 8]) + "=" == PartText(b)
  {
    PartIs(b, [b[0] / 8, b[0] % 8 * 4 + b[1] / 64, b[1] / 2 % 32, b[1] % 2 * 16 + b[2] / 16,
               b[2] % 16 * 2 + b[3] / 128, b[3] / 4 % 32, b[3] % 4 * 8], "=");
  }

  lemma PartSizes(n: nat, p: nat)
    requires p < n < p + 5 && p % 5 == 0
    ensures Missing(n) == 5 - (n - p) && 5 * Symbols(n) == 8 * p + 5 * Symbols(n - p) && Symbols(n - p) <= 8
  {
    var g := p / 5;
    assert p == 5 * g;
    SymbolsSplit(g, n - p);
    MissingSplit(g, n - p);
  }

  lemma LastPart(b: seq<byte>, p: nat, s: string)
    requires p < |b| < p + 5 && p % 5 == 0 && s == PartText(b[p..])
    ensures Text(QuintetsOf(b[..p])) + s == Enc(b)
  {
    PartSizes(|b|, p);
    LastBits(b, p);
    var c := b[p..] + Zeros(5 - (|b| - p));
    TwoTexts(QuintetsOf(b[..p]), Quintets(c), Symbols(|b| - p));
  }

  lemma LastBits(b: seq<byte>, p: nat)
    requires p < |b| < p + 5 && p % 5 == 0
    ensures QuintetsOf(b + Zeros(Missing(|b|))) == QuintetsOf(b[..p]) + Quintets(b[p..] + Zeros(5 - (|b| - p)))
  {
    PartSizes(|b|, p);
    var c := b[p..] + Zeros(5 - (|b| - p));
    assert b + Zeros(Missing(|b|)) == b[..p] + c;
    QuintetsAppend(b[..p], c);
    OneQuintets(c);
  }

  lemma TwoTexts(x: seq<quintet>, y: seq<quintet>, n: nat)
    requires n <= |y|
    ensures Text((x + y)[..|x| + n]) == Text(x) + Text(y[..n])
  {
    assert (x + y)[..|x| + n] == x + y[..n];
  }

  lemma NoPart(b: seq<byte>, p: nat)
    requires p == |b| && p % 5 == 0
    ensures Text(QuintetsOf(b[..p])) == Enc(b)
  {
    assert b[..p] == b && b + Zeros(0) == b && Missing(|b|) == 0;
    assert QuintetsOf(b)[..Symbols(|b|)] == QuintetsOf(b);
  }

  // ---------------------------------------------------------------- the decoder

  /** The result of a loop that has read the values xs, when r is the result of the rest. */
  predicate Awaits(all: Result<Read>, xs: seq<quintet>, r: Result<Read>) { all == After(xs, r) }

  lemma AwaitsAll(r: Result<Read>)
    ensures Awaits(r, [], r)
  {
    assert r.Ok? ==> [] + r.value.x == r.value.x;
  }

  lemma AwaitsLess(all: Result<Read>, xs: seq<quintet>, ys: seq<quintet>, r: Result<Read>)
    requires Awaits(all, xs, After(ys, r))
    ensures Awaits(all, xs + ys, r)
  {
    assert r.Ok? ==> xs + (ys + r.value.x) == xs + ys + r.value.x;
  }

  lemma AwaitsNone(all: Result<Read>, xs: seq<quintet>, pad: nat)
    requires Awaits(all, xs, Ok(Read([], pad)))
    ensures all == Ok(Read(xs, pad))
  {
    assert xs + [] == xs;
  }

  /** The loop over the eight characters of a group. */
  method ReadChars(buf: string, i: nat, pad0: nat, x: array<quintet>) returns (err: Result<()>, pad: nat)
    requires i + 8 <= |buf| && x.Length == 8
    modifies x
    ensures var r := ReadGroup(buf[i..i + 8], 0, pad0);
            if r.Err? then err == Err(r.error) else err == Ok(()) && x[..] == r.value.x && pad == r.value.pad
  {
    var j := 0;
    pad := pad0;
    ghost var g := buf[i..i + 8];
    ghost var all := ReadGroup(g, 0, pad0);
    assert g[0..] == g && x[..0] == [];
    AwaitsAll(all);
    while j < 8
      invariant j <= 8 && Awaits(all, x[..j], ReadGroup(g[j..], j, pad))
    {
      var a := buf[i + j];
      assert g[j..][0] == a && g[j..][1..] == g[j + 1..];
      ghost var xs := x[..j];
      if a == '=' {
        x[j] := 0;
        pad := pad + 1;
      } else if pad > 0 {
        return Err(PaddingInside(j - 1)), pad;
      } else if Value(a) == 64 {
        return Err(BadCharacter(j, a)), pad;
      } else {
        x[j] := Value(a);
      }
      assert x[..j + 1] == xs + [x[j]];
      AwaitsLess(all, xs, [x[j]], ReadGroup(g[j + 1..], j + 1, pad));
      j := j + 1;
    }
    AwaitsNone(all, x[..8], pad);
    assert x[..8] == x[..];
    err := Ok(());
  }

  /** The loop over the groups: five bytes from eight values. */
  method DecodeGroups(buf: string, out: array<byte>) returns (err: Result<()>, at: nat, pad: nat)
    requires |buf| % 8 == 0 && out.Length >= 5 * (|buf| / 8)
    modifies out
    ensures var d := Dec(buf, 0);
            if d.Err? then err == Err(d.error)
            else err == Ok(()) && pad == d.value.pad && at == |OctetsOf(d.value.x)| <= out.Length
                 && out[..at] == OctetsOf(d.value.x)
  {
    var x := new quintet[8](k => 0);
    var i := 0;
    at, pad := 0, 0;
    ghost var all, xs: seq<quintet> := Dec(buf, 0), [];
    ghost var g := 0;
    assert buf[0..] == buf;
    AwaitsAll(all);
    while i < |buf|
      invariant i == 8 * g == |xs| <= |buf| && at == 5 * g
      invariant Awaits(all, xs, Dec(buf[i..], pad)) && out[..at] == OctetsOf(xs)
    {
      err, pad, xs := DecodeGroup(buf, i, out, at, x, pad, all, xs);
      if err.Err? {
        return;
      }
      i, at, g := i + 8, at + 5, g + 1;
    }
    AwaitsNone(all, xs, pad);
    err := Ok(());
  }

  method DecodeGroup(buf: string, i: nat, out: array<byte>, at: nat, x: array<quintet>, pad0: nat,
                     ghost all: Result<Read>, ghost xs: seq<quintet>)
    returns (err: Result<()>, pad: nat, ghost more: seq<quintet>)
    requires |buf| % 8 == 0 && i % 8 == 0 && i + 8 <= |buf| && at + 5 <= out.Length && x.Length == 8
    requires |xs| % 8 == 0 && Awaits(all, xs, Dec(buf[i..], pad0)) && out[..at] == OctetsOf(xs)
    modifies out, x
    ensures if err.Err? then all == Err(err.error)
            else err == Ok(()) && |more| == |xs| + 8 && Awaits(all, more, Dec(buf[i + 8..], pad))
                 && out[..at + 5] == OctetsOf(more)
  {
    err, pad := ReadChars(buf, i, pad0, x);
    more := xs + x[..];
    GroupOf(buf, i);
    if err.Ok? {
      AwaitsLess(all, xs, x[..], Dec(buf[i + 8..], pad));
      OctetsAppend(xs, x[..]);
      OneOctets(x[..]);
      PutOctets(out, at, x);
    }
  }

  lemma GroupOf(buf: string, i: nat)
    requires i + 8 <= |buf|
    ensures buf[i..][..8] == buf[i..i + 8] && buf[i..][8..] == buf[i + 8..]
  {}

  method PutOctets(out: array<byte>, at: nat, x: array<quintet>)
    requires at + 5 <= out.Length && x.Length == 8
    modifies out
    ensures out[..at + 5] == old(out[..at]) + Octets(x[..])
  {
    var v: seq<nat> := x[..];
    ghost var done := out[..at];
    out[at] := v[0] * 8 + v[1] / 4;
    out[at + 1] := v[1] % 4 * 64 + v[2] * 2 + v[3] / 16;
    out[at + 2] := v[3] % 16 * 16 + v[4] / 2;
    out[at + 3] := v[4] % 2 * 128 + v[5] * 4 + v[6] / 8;
    out[at + 4] := v[6] % 8 * 32 + v[7];
    assert out[..at + 5] == done + [out[at], out[at + 1], out[at + 2], out[at + 3], out[at + 4]];
  }

  const TCL_UTF_MAX: nat := 3

  /** Base32DecodeCmd: the groups, the padding, and the conversion to hexadecimal. */
  method Base32Decode(buf: string) returns (r: Result<string>)
    ensures r == Decode(buf)
  {
    if |buf| % 8 != 0 {
      return Err(BadLength);
    }
    var out := new byte[|buf| / 8 * 5 * TCL_UTF_MAX](i => 0);
    var err, at, pad := DecodeGroups(buf, out);
    if err.Err? {
      return Err(err.error);
    }
    ghost var v := Dec(buf, 0).value.x;
    if pad > 0 {
      if pad == 1 {
        at := at - 1;
      } else if pad == 3 {
        at := at - 2;
      } else if pad == 4 {
        at := at - 3;
      } else if pad == 6 {
        at := at - 4;
      } else {
        return Err(BadPadding(pad));
      }
    }
    assert out[..at] == Shortened(OctetsOf(v), Dropped(pad));
    var digest := BytesToHex(out, at);
    r := Ok(digest);
  }

  method BytesToHex(out: array<byte>, nout: nat) returns (digest: string)
    requires nout <= out.Length
    ensures digest == ToHex(out[..nout])
  {
    var a := new char[2 * nout](i => '0');
    var i := 0;
    ghost var b := out[..nout];
    assert b[0..] == b;
    while i < nout
      invariant i <= nout && out[..nout] == b && a[..2 * i] + ToHex(b[i..]) == ToHex(b)
    {
      assert b[i] == out[i];
      HexStep(b, i, a[..2 * i]);
      PutHex(a, i, out[i]);
      i := i + 1;
    }
    assert a[..2 * nout] == a[..] && ToHex(b[nout..]) == "";
    digest := a[..];
  }

  lemma HexStep(b: seq<byte>, i: nat, before: string)
    requires i < |b|
    ensures before + ToHex(b[i..]) == before + [HexDigit(b[i] / 16), HexDigit(b[i] % 16)] + ToHex(b[i + 1..])
  {
    assert b[i..][1..] == b[i + 1..];
  }

  method PutHex(a: array<char>, i: nat, v: byte)
    requires 2 * i + 2 <= a.Length
    modifies a
    ensures a[..2 * (i + 1)] == old(a[..2 * i]) + [HexDigit(v / 16), HexDigit(v % 16)]
  {
    a[i + i] := HexDigit(v / 16);
    a[i + i + 1] := HexDigit(v % 16);
  }
}
