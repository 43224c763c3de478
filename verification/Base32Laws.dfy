/** What the symbols of base32 mean: which characters they are, and that a text and its bytes are one and the same
    number written in two bases. */
module Base32Laws {

  import opened Numbers
  import opened Base32

  // ---------------------------------------------------------------- characters

  const ALPHABET: string := "ABCDEFGH" + "IJKLMNOP" + "QRSTUVWX" + "YZ234567"

  lemma SymbolIs(v: quintet)
    ensures Symbol(v) == ALPHABET[v]
  {
    var row, i := v / 8, v % 8;
    assert v == 8 * row + i;
    if row == 0 {
      assert ALPHABET[v] == "ABCDEFGH"[i] == 'A' + i as char;
    } else if row == 1 {
      assert ALPHABET[v] == "IJKLMNOP"[i] == 'I' + i as char;
    } else if row == 2 {
      assert ALPHABET[v] == "QRSTUVWX"[i] == 'Q' + i as char;
    } else {
      assert ALPHABET[v] == "YZ234567"[i];
    }
  }

  /** A character has a value when it or its upper case is in the alphabet, and then stands at that place. */
  lemma ValueIs(c: char)
    ensures Value(c) == 64 <==> c !in ALPHABET && !('a' <= c <= 'z')
    ensures Value(c) < 32 && !('a' <= c <= 'z') ==> ALPHABET[Value(c)] == c
    ensures 'a' <= c <= 'z' ==> Value(c) < 26 && ALPHABET[Value(c)] as nat + 32 == c as nat
  {
    if Value(c) < 32 {
      ValueSymbol(c);
      SymbolIs(Value(c));
    } else if i: nat :| i < |ALPHABET| && ALPHABET[i] == c {
      SymbolIs(i);
      SymbolValue(i);
    }
  }

  const DIGITS: string := "01234567" + "89abcdef"

  lemma HexDigitIs(v: nat)
    requires v < 16
    ensures HexDigit(v) == DIGITS[v]
  {
    if v < 8 {
      assert DIGITS[v] == "01234567"[v] == '0' + v as char;
    } else {
      assert DIGITS[v] == "89abcdef"[v - 8];
    }
  }

  /** The hexadecimal digits, in either case, and what they stand for. */
  lemma HexIs(c: char)
    ensures IsHex(c) <==> c in DIGITS || 'A' <= c <= 'F'
    ensures IsHex(c) && !('A' <= c <= 'F') ==> DIGITS[Hex2Dec(c)] == c
    ensures 'A' <= c <= 'F' ==> DIGITS[Hex2Dec(c)] as nat == c as nat + 32
  {
    if IsHex(c) {
      HexDigitIs(Hex2Dec(c));
    } else if i: nat :| i < |DIGITS| && DIGITS[i] == c {
      HexDigitIs(i);
    }
  }

  // ---------------------------------------------------------------- numbers

  /** The number that digits to a base write, the highest first. */
  function Numeral(base: nat, s: seq<nat>): nat {
    if s == [] then 0 else base * Numeral(base, s[..|s| - 1]) + s[|s| - 1]
  }

  lemma OneDigit(base: nat, s: seq<nat>, d: nat)
    ensures Numeral(base, s + [d]) == base * Numeral(base, s) + d
  {
    assert (s + [d])[..|s|] == s;
  }

  lemma FiveBytes(s: seq<nat>, b: seq<nat>)
    requires |b| == 5
    ensures Numeral(256, s + b)
         == 0x100_0000_0000 * Numeral(256, s) + 0x1_0000_0000 * b[0] + 0x100_0000 * b[1] + 0x1_0000 * b[2] + 0x100 * b[3] + b[4]
  {
    OneDigit(256, s, b[0]);
    OneDigit(256, s + [b[0]], b[1]);
    OneDigit(256, s + [b[0]] + [b[1]], b[2]);
    OneDigit(256, s + [b[0]] + [b[1]] + [b[2]], b[3]);
    OneDigit(256, s + [b[0]] + [b[1]] + [b[2]] + [b[3]], b[4]);
    assert s + b == s + [b[0]] + [b[1]] + [b[2]] + [b[3]] + [b[4]];
  }

  lemma FourDigits(s: seq<nat>, x: seq<nat>)
    requires |x| == 4
    ensures Numeral(32, s + x) == 0x10_0000 * Numeral(32, s) + 0x8000 * x[0] + 0x400 * x[1] + 0x20 * x[2] + x[3]
  {
    OneDigit(32, s, x[0]);
    OneDigit(32, s + [x[0]], x[1]);
    OneDigit(32, s + [x[0]] + [x[1]], x[2]);
    OneDigit(32, s + [x[0]] + [x[1]] + [x[2]], x[3]);
    assert s + x == s + [x[0]] + [x[1]] + [x[2]] + [x[3]];
  }

  lemma FirstBits(a: byte, b: byte, c: byte)
    ensures 0x8000 * (a / 8) + 0x400 * (a % 8 * 4 + b / 64) + 0x20 * (b / 2 % 32) + (b % 2 * 16 + c / 16)
         == 0x1000 * a + 0x10 * b + c / 16
  {
    assert a == 8 * (a / 8) + a % 8;
    assert b == 64 * (b / 64) + 2 * (b / 2 % 32) + b % 2;
  }

  lemma LastBits(c: byte, d: byte, e: byte)
    ensures 0x8000 * (c % 16 * 2 + d / 128) + 0x400 * (d / 4 % 32) + 0x20 * (d % 4 * 8 + e / 32) + e % 32
         == 0x1_0000 * (c % 16) + 0x100 * d + e
  {
    assert d == 128 * (d / 128) + 4 * (d / 4 % 32) + d % 4;
  }

  /** The forty bits of a group. */
  lemma GroupIs(b: seq<byte>)
    requires |b| == 5
    ensures var x: seq<nat>, b: seq<nat> := Quintets(b), b;
            0x10_0000 * (0x8000 * x[0] + 0x400 * x[1] + 0x20 * x[2] + x[3])
               + (0x8000 * x[4] + 0x400 * x[5] + 0x20 * x[6] + x[7])
            == 0x1_0000_0000 * b[0] + 0x100_0000 * b[1] + 0x1_0000 * b[2] + 0x100 * b[3] + b[4]
  {
    FirstBits(b[0], b[1], b[2]);
    LastBits(b[2], b[3], b[4]);
  }

  lemma OneGroup(s: seq<byte>, t: seq<quintet>, b: seq<byte>)
    requires |b| == 5 && Numeral(256, s) == Numeral(32, t)
    ensures Numeral(256, s + b) == Numeral(32, t + Quintets(b))
  {
    var x := Quintets(b);
    FiveBytes(s, b);
    FourDigits(t, x[..4]);
    FourDigits(t + x[..4], x[4..]);
    assert t + x == t + x[..4] + x[4..];
    GroupIs(b);
  }

  /** The quintets of whole groups write the number of the bytes. */
  lemma {:induction false} GroupsAre(b: seq<byte>)
    requires |b| % 5 == 0
    ensures Numeral(32, QuintetsOf(b)) == Numeral(256, b)
    decreases |b|
  {
    if b != [] {
      var m := |b| - 5;
      GroupsAre(b[..m]);
      QuintetsAppend(b[..m], b[m..]);
      OneQuintets(b[m..]);
      OneGroup(b[..m], QuintetsOf(b[..m]), b[m..]);
      assert b == b[..m] + b[m..];
    }
  }

  // ---------------------------------------------------------------- texts

  /** What the characters of a text stand for; padding stands for zeros. */
  function SymbolDigits(e: string): (x: seq<nat>)
    ensures |x| == |e| && forall i :: 0 <= i < |e| ==> x[i] == if e[i] == '=' then 0 else Value(e[i])
  {
    seq(|e|, i requires 0 <= i < |e| => if e[i] == '=' then 0 else Value(e[i]))
  }

  function HexDigits(h: string): (x: seq<nat>)
    ensures |x| == |h| && forall i :: 0 <= i < |h| ==> x[i] == Hex2Dec(h[i])
  {
    seq(|h|, i requires 0 <= i < |h| => Hex2Dec(h[i]))
  }

  lemma {:induction false} FromHexAppend(g: string, h: string)
    requires |g| % 2 == 0
    ensures FromHex(g + h) == FromHex(g) + FromHex(h)
  {
    if g == "" {
      assert g + h == h;
    } else {
      FromHexAppend(g[2..], h);
      PairAhead(g, h);
      Grouped([HexByte(g[0], g[1])], FromHex(g[2..]), FromHex(h));
    }
  }

  lemma PairAhead(g: string, h: string)
    requires |g| >= 2
    ensures FromHex(g + h) == [HexByte(g[0], g[1])] + FromHex(g[2..] + h) && FromHex(g) == [HexByte(g[0], g[1])] + FromHex(g[2..])
  {
    assert (g + h)[2..] == g[2..] + h;
  }

  lemma Grouped(a: seq<byte>, b: seq<byte>, c: seq<byte>)
    ensures a + (b + c) == a + b + c
  {}

  lemma OnePair(h: string)
    requires |h| == 2
    ensures FromHex(h) == [16 * Hex2Dec(h[0]) + Hex2Dec(h[1])]
  {
    assert h[2..] == "";
  }

  /** A hexadecimal string writes the number of its bytes. */
  lemma {:induction false} HexNumber(h: string)
    requires |h| % 2 == 0
    ensures Numeral(256, FromHex(h)) == Numeral(16, HexDigits(h))
    decreases |h|
  {
    if h != "" {
      var m := |h| - 2;
      var g, c, d := h[..m], h[m], h[m + 1];
      HexNumber(g);
      FromHexAppend(g, h[m..]);
      OnePair(h[m..]);
      OneDigit(256, FromHex(g), 16 * Hex2Dec(c) + Hex2Dec(d));
      OneDigit(16, HexDigits(g), Hex2Dec(c));
      OneDigit(16, HexDigits(g) + [Hex2Dec(c)], Hex2Dec(d));
      assert h == g + h[m..];
      assert HexDigits(h) == HexDigits(g) + [Hex2Dec(c)] + [Hex2Dec(d)];
    }
  }

  lemma LastZero(s: seq<nat>, n: nat)
    requires n > 0
    ensures s + Zeros(n) == s + Zeros(n - 1) + [0]
  {}

  /** Each zero shifts by one digit. */
  lemma OneZero(base: nat, s: seq<nat>, n: nat)
    requires n > 0
    ensures Numeral(base, s + Zeros(n)) == base * Numeral(base, s + Zeros(n - 1))
  {
    LastZero(s, n);
    OneDigit(base, s + Zeros(n - 1), 0);
  }

  lemma {:induction false} ZeroBytes(b: seq<nat>, x: seq<nat>, n: nat)
    requires Numeral(256, b) == Numeral(16, x)
    ensures Numeral(256, b + Zeros(n)) == Numeral(16, x + Zeros(2 * n))
  {
    if n == 0 {
      assert b + Zeros(0) == b && x + Zeros(0) == x;
    } else {
      ZeroBytes(b, x, n - 1);
      OneZero(256, b, n);
      OneZero(16, x, 2 * n);
      OneZero(16, x, 2 * n - 1);
    }
  }

  lemma SymbolDigitsAre(e: string, n: nat)
    requires Shaped(e, n)
    ensures SymbolDigits(e) == Values(e, n)
  {
    forall i | 0 <= i < n ensures e[i] != '=' {
      assert Value(e[i]) < 32;
    }
  }

  /** The bytes with zeros up to whole groups. */
  function Filled(b: seq<byte>): (r: seq<byte>)
    ensures |r| % 5 == 0
  {
    b + Zeros(Missing(|b|))
  }

  lemma EncDigits(b: seq<byte>)
    ensures SymbolDigits(Enc(b)) == QuintetsOf(Filled(b))
  {
    EncAccepted(b);
    SymbolDigitsAre(Enc(b), Symbols(|b|));
  }

  lemma SameNumber(x: seq<nat>, b: seq<byte>)
    requires |b| % 5 == 0 && x == QuintetsOf(b)
    ensures Numeral(32, x) == Numeral(256, b)
  {
    GroupsAre(b);
  }

  /** The symbols of an encoding write the number of the bytes with zeros up to whole groups. */
  lemma EncNumber(b: seq<byte>)
    ensures Numeral(32, SymbolDigits(Enc(b))) == Numeral(256, Filled(b))
  {
    EncDigits(b);
    SameNumber(SymbolDigits(Enc(b)), Filled(b));
  }

  /** The encoding writes to the base 32, in groups of eight, what the hexadecimal string writes to the base 16, with
      zeros behind it up to whole groups. */
  lemma EncodingIsNumber(h: string, zeros: nat)
    requires |h| % 2 == 0 && forall c :: c in h ==> IsHex(c)
    requires zeros < 10 && (|h| + zeros) % 10 == 0
    ensures Encode(h).Ok? && Numeral(32, SymbolDigits(Encode(h).value)) == Numeral(16, HexDigits(h) + Zeros(zeros))
    ensures 5 * |Encode(h).value| == 4 * (|h| + zeros)
  {
    var b := FromHex(h);
    HexLength(h);
    assert zeros == 2 * Missing(|b|);
    EncNumber(b);
    EncLength(b);
    HexNumber(h);
    ZeroBytes(b, HexDigits(h), Missing(|b|));
  }

  /** The bytes of all groups of a text, before the last ones are dropped. */
  function GroupBytes(x: string, n: nat): (b: seq<byte>)
    requires Accepted(x, n)
    ensures |b| % 5 == 0
  {
    OctetsOf(Values(x, n))
  }

  lemma ValuesDigits(x: string, n: nat)
    requires Accepted(x, n)
    ensures SymbolDigits(x) == QuintetsOf(GroupBytes(x, n))
  {
    SymbolDigitsAre(x, n);
    AllQuintets(Values(x, n));
  }

  lemma ValuesNumber(x: string, n: nat)
    requires Accepted(x, n)
    ensures Numeral(32, SymbolDigits(x)) == Numeral(256, GroupBytes(x, n))
  {
    ValuesDigits(x, n);
    SameNumber(SymbolDigits(x), GroupBytes(x, n));
  }

  /** Decoding answers the leading bytes of the number that the text writes to the base 32: as many as have all their
      bits before the padding. */
  lemma DecodingIsNumber(x: string, n: nat) returns (b: seq<byte>, rest: seq<byte>)
    requires Accepted(x, n)
    ensures Decode(x).Ok? && FromHex(Decode(x).value) == b
    ensures Numeral(256, b + rest) == Numeral(32, SymbolDigits(x))
    ensures 8 * |b| <= 5 * n < 8 * |b| + 8 && 8 * (|b| + |rest|) == 5 * |x|
  {
    var all, d := OctetsOf(Values(x, n)), Dropped(|x| - n);
    DecodedBytes(x, n);
    ValuesNumber(x, n);
    if x == "" {
      b, rest := [], [];
    } else {
      b, rest := all[..|all| - d], all[|all| - d..];
      assert all == b + rest;
    }
    HexRoundTrip(b);
  }
}
