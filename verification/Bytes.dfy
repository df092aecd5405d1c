/** Bytes, fixed-width integers and the small sequence vocabulary every other module shares. */
module Bytes {

  type byte = x: int | 0 <= x < 0x100
  type uint32 = x: int | 0 <= x < 0x1_0000_0000
  type int32 = x: int | -0x8000_0000 <= x < 0x8000_0000

  datatype Option<+T> = None | Some(value: T)

  /** Every way the modelled code can fail; the source's error texts are not kept. */
  datatype Error =
    | Unaligned | Eof | BadKey | BadSize | BadMagic | BadChecksum
    | BadHeader | HeaderTooLong | TooBig | UnexpectedType | EmptyName | NotPush
    | AckMismatch | BadInflate | NoLegs | WriteFailed | NoSink

  datatype Result<+T> = Ok(value: T) | Err(error: Error)

  /** Go's conversion uint32(i). */
  function ToUint32(i: int): uint32 {
    i % 0x1_0000_0000
  }

  /** Go's conversion int32(i) from any wider integer: keep the low 32 bits, read them as two's complement. */
  function ToInt32(i: int): int32 {
    var u := i % 0x1_0000_0000;
    if u < 0x8000_0000 then u else u - 0x1_0000_0000
  }

  lemma Int32RoundTrip(i: int32)
    ensures ToInt32(ToUint32(i)) == i
  {
  }

  lemma Uint32RoundTrip(u: uint32)
    ensures ToUint32(ToInt32(u)) == u
  {
  }

  lemma ToInt32Fits(i: int)
    ensures ToInt32(i) == i <==> -0x8000_0000 <= i < 0x8000_0000
  {
  }

  /** Two integers truncate to the same int32 exactly when they agree modulo 2^32. */
  lemma ToInt32Collides(i: int, j: int)
    ensures ToInt32(i) == ToInt32(j) <==> (i - j) % 0x1_0000_0000 == 0
  {
  }

  function Le32(u: uint32): (s: seq<byte>)
    ensures |s| == 4
  {
    [u % 0x100, u / 0x100 % 0x100, u / 0x1_0000 % 0x100, u / 0x100_0000]
  }

  function FromLe32(s: seq<byte>): uint32
    requires |s| == 4
  {
    var b0: int, b1: int, b2: int, b3: int := s[0], s[1], s[2], s[3];
    b0 + 0x100 * b1 + 0x1_0000 * b2 + 0x100_0000 * b3
  }

  lemma Le32RoundTrip(u: uint32)
    ensures FromLe32(Le32(u)) == u
  {
    var h, t := u / 0x100, u / 0x1_0000;
    assert u == u % 0x100 + 0x100 * h && h == h % 0x100 + 0x100 * t && t == t % 0x100 + 0x100 * (u / 0x100_0000);
  }

  /** Exclusive or of the low `bits` bits, written out on integers. */
  function XorBits(a: nat, b: nat, bits: nat): nat {
    if bits == 0 then 0 else (a + b) % 2 + 2 * XorBits(a / 2, b / 2, bits - 1)
  }

  lemma XorBitsBound(a: nat, b: nat)
    ensures XorBits(a, b, 8) < 0x100
  {
    XorBitsBelow(a, b, 8);
  }

  ghost function Pow2(n: nat): nat {
    if n == 0 then 1 else 2 * Pow2(n - 1)
  }

  lemma XorBitsBelow(a: nat, b: nat, bits: nat)
    ensures XorBits(a, b, bits) < Pow2(bits)
  {
  }

  lemma HalfAndBit(bit: nat, half: nat)
    requires bit < 2
    ensures (bit + 2 * half) / 2 == half && (bit + 2 * half) % 2 == bit
  {
  }

  lemma AddTwice(a: nat, b: nat)
    ensures forall half: nat :: ((a + b) % 2 + 2 * half + b) % 2 == a % 2
  {
  }

  lemma {:induction false} XorBitsCancel(a: nat, b: nat, bits: nat)
    requires a < Pow2(bits)
    ensures XorBits(XorBits(a, b, bits), b, bits) == a
  {
    if bits == 0 {
    } else {
      var half := XorBits(a / 2, b / 2, bits - 1);
      HalfAndBit((a + b) % 2, half);
      AddTwice(a, b);
      XorBitsCancel(a / 2, b / 2, bits - 1);
    }
  }

  lemma {:induction false} XorBitsSwap(a: nat, b: nat, bits: nat)
    ensures XorBits(a, b, bits) == XorBits(b, a, bits)
  {
    if bits > 0 { XorBitsSwap(a / 2, b / 2, bits - 1); }
  }

  lemma XorSwap(a: byte, b: byte)
    ensures Xor(a, b) == Xor(b, a)
  {
    XorBitsSwap(a, b, 8);
  }

  function Xor(a: byte, b: byte): byte {
    XorBitsBound(a, b);
    XorBits(a, b, 8)
  }

  lemma XorCancel(a: byte, b: byte)
    ensures Xor(Xor(a, b), b) == a
  {
    assert Pow2(8) == 0x100;
    XorBitsCancel(a, b, 8);
  }

  /** Bit k, counted from the low end. */
  function Bit(x: nat, k: nat): nat {
    if k == 0 then x % 2 else Bit(x / 2, k - 1)
  }

  lemma ParityOfSum(a: nat, b: nat)
    ensures (a + b) % 2 == 1 <==> (a % 2 == 1) != (b % 2 == 1)
  {
  }

  lemma {:induction false} XorBitsBit(a: nat, b: nat, bits: nat, k: nat)
    requires k < bits
    ensures Bit(XorBits(a, b, bits), k) == 1 <==> (Bit(a, k) == 1) != (Bit(b, k) == 1)
  {
    var bit, half := (a + b) % 2, XorBits(a / 2, b / 2, bits - 1);
    var x := XorBits(a, b, bits);
    assert x == bit + 2 * half;
    HalfAndBit(bit, half);
    if k == 0 {
      ParityOfSum(a, b);
    } else {
      hide XorBits;
      assert Bit(x, k) == Bit(half, k - 1);
      XorBitsBit(a / 2, b / 2, bits - 1, k - 1);
    }
  }

  /** The exclusive or has exactly the bits that one of the two has and the other has not. */
  lemma XorIsBitwise(a: byte, b: byte)
    ensures forall k: nat :: k < 8 ==> (Bit(Xor(a, b), k) == 1 <==> (Bit(a, k) == 1) != (Bit(b, k) == 1))
  {
    hide XorBits, Bit;
    forall k: nat | k < 8 ensures Bit(Xor(a, b), k) == 1 <==> (Bit(a, k) == 1) != (Bit(b, k) == 1) {
      XorBitsBit(a, b, 8, k);
    }
  }

  lemma {:induction false} OneMoreTimes(m: nat, d: nat, q: nat)
    requires d < q
    ensures m * d + m <= m * q
    decreases q - d
  {
    Distributes(m, d);
    if d + 1 < q { OneMoreTimes(m, d + 1, q); }
  }

  lemma Distributes(m: nat, d: nat)
    ensures m * (d + 1) == m * d + m
  {
  }

  lemma SameQuotient(m: nat, q: nat, r: nat, d: nat, t: nat)
    requires m * q + r == m * d + t && r < m && t < m
    ensures q == d
  {
    if d < q { OneMoreTimes(m, d, q); }
    if q < d { OneMoreTimes(m, q, d); }
  }

  lemma QuotientUnique(x: nat, m: nat, q: nat, r: nat)
    requires x == m * q + r && r < m
    ensures x / m == q
  {
    SameQuotient(m, q, r, x / m, x % m);
  }

  lemma HalveFirst(x: nat, m: nat)
    requires m > 0
    ensures x / 2 / m == x / (2 * m)
  {
    var q, r := x / 2 / m, x / 2 % m;
    assert x / 2 == m * q + r;
    assert x == 2 * m * q + (2 * r + x % 2);
    QuotientUnique(x, 2 * m, q, 2 * r + x % 2);
  }

  /** In arithmetic, bit k is the last binary digit of x / 2^k. */
  lemma {:induction false} BitIsDivision(x: nat, k: nat)
    ensures Pow2(k) > 0 && Bit(x, k) == x / Pow2(k) % 2
  {
    if k > 0 {
      BitIsDivision(x / 2, k - 1);
      HalveFirst(x, Pow2(k - 1));
    }
  }

  /** Go's ^b on a byte. */
  function Not(b: byte): byte {
    0xFF - b
  }

  function Zeros(n: nat): (z: seq<byte>)
    ensures |z| == n
  {
    seq(n, _ => 0)
  }

  /** n rounded up to a multiple of 16. */
  function Align16(n: nat): (a: nat)
    ensures a % 16 == 0 && n <= a < n + 16
  {
    (n + 15) / 16 * 16
  }

  lemma AlignedFits(t: nat, n: nat, len: nat)
    requires t % 16 == 0 && n % 16 == 0
    ensures t + n <= len <==> t + n <= len - len % 16
  {
    assert (t + n) % 16 == 0;
  }

  /** s without the longest run of `drop` elements at the end. */
  function TrimRight<T(==)>(s: seq<T>, drop: set<T>): (t: seq<T>)
    ensures t <= s
    ensures t != [] ==> t[|t| - 1] !in drop
    ensures forall i :: |t| <= i < |s| ==> s[i] in drop
  {
    if s == [] || s[|s| - 1] !in drop then s else TrimRight(s[..|s| - 1], drop)
  }

  /** The contract of TrimRight determines its result. */
  lemma TrimRightUnique<T>(s: seq<T>, t: seq<T>, drop: set<T>)
    requires t <= s
    requires t != [] ==> t[|t| - 1] !in drop
    requires forall i :: |t| <= i < |s| ==> s[i] in drop
    ensures TrimRight(s, drop) == t
  {
  }

  /** Taking m of the k elements after position a. */
  lemma SliceOfDrop<T>(u: seq<T>, a: nat, k: nat, m: nat)
    requires a + k <= |u| && m <= k
    ensures u[a..][..k][..m] == u[a..a + m] && u[a..][k..] == u[a + k..]
    ensures u[..a] + u[a..a + m] == u[..a + m]
  {
  }
}
