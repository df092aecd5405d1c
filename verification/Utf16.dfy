/** UTF-16LE text (sections 2.1 and 2.2 of RFC 2781) and signed decimal numbers, on Unicode scalar values. */
module Utf16 {
  import opened Bytes

  type Rune = r: int | 0 <= r < 0xD800 || 0xE000 <= r < 0x11_0000
  type uint16 = x: int | 0 <= x < 0x1_0000

  const REPLACEMENT: Rune := 0xFFFD

  function Units(r: Rune): seq<uint16> {
    if r < 0x1_0000 then [r] else [0xD800 + (r - 0x1_0000) / 0x400, 0xDC00 + (r - 0x1_0000) % 0x400]
  }

  function EncodeUnits(s: seq<Rune>): seq<uint16> {
    if s == [] then [] else Units(s[0]) + EncodeUnits(s[1..])
  }

  /** The rune at the front of u and how many units it takes; a lone surrogate reads as U+FFFD. */
  function FirstRune(u: seq<uint16>): (Rune, nat)
    requires u != []
  {
    if u[0] < 0xD800 || u[0] >= 0xE000 then (u[0], 1)
    else if u[0] < 0xDC00 && |u| > 1 && 0xDC00 <= u[1] < 0xE000 then
      var hi: int, lo: int := u[0], u[1];
      ((hi - 0xD800) * 0x400 + (lo - 0xDC00) + 0x1_0000, 2)
    else (REPLACEMENT, 1)
  }

  function DecodeUnits(u: seq<uint16>): seq<Rune>
    decreases |u|
  {
    if u == [] then [] else
      var (r, n) := FirstRune(u);
      if n <= |u| then [r] + DecodeUnits(u[n..]) else [r]
  }

  lemma RuneRoundTrip(r: Rune, rest: seq<uint16>)
    ensures FirstRune(Units(r) + rest) == (r, |Units(r)|)
  {
    if r >= 0x1_0000 {
      var v := r - 0x1_0000;
      assert v == v / 0x400 * 0x400 + v % 0x400;
    }
  }

  /** A unit outside the surrogates is its own rune; a high one before a low one is the rune they encode; any other
      surrogate reads as U+FFFD and takes one unit. */
  lemma SurrogateRules(u: seq<uint16>)
    requires u != []
    ensures var (r, n) := FirstRune(u);
            var high, low := 0xD800 <= u[0] < 0xDC00, |u| > 1 && 0xDC00 <= u[1] < 0xE000;
            && (u[0] < 0xD800 || u[0] >= 0xE000 ==> (r, n) == (u[0], 1))
            && (high && low ==> n == 2 && Units(r) == u[..2])
            && (0xD800 <= u[0] < 0xE000 && !(high && low) ==> (r, n) == (0xFFFD, 1))
  {
    if 0xD800 <= u[0] < 0xDC00 && |u| > 1 && 0xDC00 <= u[1] < 0xE000 {
      PairSplits(u[0] - 0xD800, u[1] - 0xDC00);
    }
  }

  lemma PairSplits(h: int, l: int)
    requires 0 <= h < 0x400 && 0 <= l < 0x400
    ensures (h * 0x400 + l) / 0x400 == h && (h * 0x400 + l) % 0x400 == l
  {
  }

  lemma DecodeOne(r: Rune, rest: seq<uint16>)
    ensures DecodeUnits(Units(r) + rest) == [r] + DecodeUnits(rest)
  {
    hide Units, FirstRune;
    var u := Units(r);
    RuneRoundTrip(r, rest);
    assert u != [] by { UnitsNonEmpty(r); }
    assert (u + rest)[|u|..] == rest;
  }

  lemma UnitsNonEmpty(r: Rune)
    ensures Units(r) != []
  {
  }

  /** An encoded text is decoded in full, whatever follows it. */
  lemma {:induction false} DecodeEncoded(s: seq<Rune>, rest: seq<uint16>)
    ensures DecodeUnits(EncodeUnits(s) + rest) == s + DecodeUnits(rest)
  {
    hide Units, FirstRune, DecodeUnits;
    if s == [] {
      assert EncodeUnits(s) + rest == rest && s + DecodeUnits(rest) == DecodeUnits(rest);
    } else {
      var u, tail := Units(s[0]), EncodeUnits(s[1..]) + rest;
      assert EncodeUnits(s) + rest == u + tail;
      DecodeOne(s[0], tail);
      DecodeEncoded(s[1..], rest);
      assert [s[0]] + (s[1..] + DecodeUnits(rest)) == s + DecodeUnits(rest);
    }
  }

  // Units as little-endian bytes.

  function ToBytes(u: seq<uint16>): (b: seq<byte>)
    ensures |b| == 2 * |u|
  {
    seq(2 * |u|, i requires 0 <= i < 2 * |u| => if i % 2 == 0 then u[i / 2] % 0x100 else u[i / 2] / 0x100)
  }

  function UnitAt(b: seq<byte>, i: nat): uint16
    requires 2 * i + 1 < |b|
  {
    var hi: int := b[2 * i + 1];
    b[2 * i] + 0x100 * hi
  }

  /** An odd byte at the end is dropped. */
  function FromBytes(b: seq<byte>): (u: seq<uint16>)
    ensures |u| == |b| / 2
  {
    seq(|b| / 2, i requires 0 <= i < |b| / 2 => UnitAt(b, i))
  }

  lemma BytesRoundTrip(u: seq<uint16>, zeros: nat)
    ensures FromBytes(ToBytes(u) + Zeros(2 * zeros)) == u + seq(zeros, _ => 0)
  {
    var b, v := ToBytes(u) + Zeros(2 * zeros), FromBytes(ToBytes(u) + Zeros(2 * zeros));
    forall i | 0 <= i < |v| ensures v[i] == (u + seq(zeros, _ => 0))[i] {
      if i < |u| {
        var x: int := u[i];
        assert b[2 * i] == x % 0x100 && b[2 * i + 1] == x / 0x100;
      } else {
        assert b[2 * i] == 0 && b[2 * i + 1] == 0;
      }
    }
  }

  function EncodeUTF16LE(s: seq<Rune>): seq<byte> {
    ToBytes(EncodeUnits(s))
  }

  function DecodeUTF16LE(b: seq<byte>): seq<Rune> {
    DecodeUnits(FromBytes(b))
  }

  method EncodeText(s: seq<Rune>) returns (out: array<byte>)
    ensures fresh(out) && out[..] == EncodeUTF16LE(s)
  {
    var u := EncodeUnits(s);
    out := new byte[2 * |u|];
    for i := 0 to |u|
      invariant forall k :: 0 <= k < 2 * i ==> out[k] == ToBytes(u)[k]
    {
      out[2 * i] := u[i] % 0x100;
      out[2 * i + 1] := u[i] / 0x100;
    }
  }

  method DecodeText(b: seq<byte>) returns (s: seq<Rune>)
    ensures s == DecodeUTF16LE(b)
  {
    var even := if |b| % 2 == 1 then b[..|b| - 1] else b;
    var u := new uint16[|even| / 2];
    for i := 0 to u.Length
      invariant forall k :: 0 <= k < i ==> u[k] == FromBytes(b)[k]
    {
      u[i] := UnitAt(even, i);
    }
    assert u[..] == FromBytes(b);
    s := DecodeUnits(u[..]);
  }

  lemma {:induction false} DecodeZeros(n: nat)
    ensures DecodeUnits(seq(n, _ => 0)) == seq(n, _ => 0)
  {
    if n > 0 {
      var z: seq<uint16> := seq(n, _ => 0);
      assert z[1..] == seq(n - 1, _ => 0);
      DecodeZeros(n - 1);
    }
  }

  /** Zero padding after an encoded text reads as NULs after the text. */
  lemma PaddedTextRoundTrip(s: seq<Rune>, zeros: nat)
    ensures DecodeUTF16LE(EncodeUTF16LE(s) + Zeros(2 * zeros)) == s + seq(zeros, _ => 0)
  {
    BytesRoundTrip(EncodeUnits(s), zeros);
    DecodeEncoded(s, seq(zeros, _ => 0));
    DecodeZeros(zeros);
  }

  // Decimal numbers.

  const MINUS: Rune := 45
  const PLUS: Rune := 43

  function Digits(n: nat): (s: seq<Rune>)
    ensures s != [] && forall i :: 0 <= i < |s| ==> 48 <= s[i] <= 57
  {
    if n < 10 then [48 + n] else Digits(n / 10) + [48 + n % 10]
  }

  /** strconv.FormatInt in base 10. */
  function FormatInt(n: int): seq<Rune> {
    if n < 0 then [MINUS] + Digits(-n) else Digits(n)
  }

  predicate AllDigits(s: seq<Rune>) {
    s != [] && forall i :: 0 <= i < |s| ==> 48 <= s[i] <= 57
  }

  function ValueOf(s: seq<Rune>): nat
    requires forall i :: 0 <= i < |s| ==> 48 <= s[i] <= 57
  {
    if s == [] then 0 else 10 * ValueOf(s[..|s| - 1]) + (s[|s| - 1] - 48)
  }

  /** strconv.ParseInt(s, 10, 64): one optional sign, at least one digit, and a value that fits. */
  function ParseInt(s: seq<Rune>): Option<int> {
    var digits := if s != [] && (s[0] == MINUS || s[0] == PLUS) then s[1..] else s;
    if !AllDigits(digits) then None else
      var v: int := if s[0] == MINUS then 0 - ValueOf(digits) else ValueOf(digits);
      if -0x8000_0000_0000_0000 <= v < 0x8000_0000_0000_0000 then Some(v) else None
  }

  lemma {:induction false} DigitsValue(n: nat)
    ensures ValueOf(Digits(n)) == n
  {
    if n < 10 {
      assert Digits(n)[..0] == [];
    } else {
      assert Digits(n)[..|Digits(n)| - 1] == Digits(n / 10);
      DigitsValue(n / 10);
    }
  }

  /** A number is read from an optional sign and at least one digit, if it fits in 64 bits; + says nothing. */
  lemma ParsesSigned(digits: seq<Rune>)
    requires AllDigits(digits)
    ensures var v: int := ValueOf(digits);
            && ParseInt(digits) == (if v < 0x8000_0000_0000_0000 then Some(v) else None)
            && ParseInt([43] + digits) == (if v < 0x8000_0000_0000_0000 then Some(v) else None)
            && ParseInt([45] + digits) == (if v <= 0x8000_0000_0000_0000 then Some(-v) else None)
  {
    hide ValueOf;
    assert ([43] + digits)[1..] == digits && ([45] + digits)[1..] == digits;
  }

  lemma DecimalRoundTrip(n: int)
    requires -0x8000_0000_0000_0000 <= n < 0x8000_0000_0000_0000
    ensures ParseInt(FormatInt(n)) == Some(n)
  {
    hide Digits, ValueOf;
    DigitsValue(if n < 0 then -n else n);
    if n < 0 {
      assert FormatInt(n)[1..] == Digits(-n);
    }
  }
}
