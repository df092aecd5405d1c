/** Cipher block chaining (section 6.2 of NIST SP 800-38A) over an arbitrary keyed block bijection. */
module Crypto {
  import opened Bytes

  type Block = b: seq<byte> | |b| == 16 witness Zeros(16)

  datatype BlockPair = BlockPair(E: Block -> Block, D: Block -> Block)

  /** AES under one key: all that is used of it is that D undoes E and E undoes D. */
  type BlockCipher = c: BlockPair | Inverse(c) witness BlockPair((b: Block) => b, (b: Block) => b)

  ghost predicate Inverse(c: BlockPair) {
    (forall b: Block :: c.D(c.E(b)) == b) && (forall b: Block :: c.E(c.D(b)) == b)
  }

  function XorBlock(a: Block, b: Block): Block {
    seq(16, i requires 0 <= i < 16 => Xor(a[i], b[i]))
  }

  lemma XorBlockCancel(a: Block, b: Block)
    ensures XorBlock(XorBlock(a, b), b) == a
  {
    forall i | 0 <= i < 16 ensures XorBlock(XorBlock(a, b), b)[i] == a[i] {
      XorCancel(a[i], b[i]);
    }
  }

  // The chained modes, block by block.  A trailing partial block is ignored.

  function CbcEnc(c: BlockCipher, iv: Block, plain: seq<byte>): (out: seq<byte>)
    ensures |out| == |plain| - |plain| % 16
    decreases |plain|
  {
    if |plain| < 16 then [] else
      var y: seq<byte> := c.E(XorBlock(plain[..16], iv));
      y + CbcEnc(c, y, plain[16..])
  }

  function CbcDec(c: BlockCipher, iv: Block, cipher: seq<byte>): (out: seq<byte>)
    ensures |out| == |cipher| - |cipher| % 16
    decreases |cipher|
  {
    if |cipher| < 16 then [] else
      XorBlock(c.D(cipher[..16]), iv) + CbcDec(c, cipher[..16], cipher[16..])
  }

  /** The chaining value left behind by a ciphertext: its last whole block, or iv when there is none. */
  function Chain(iv: Block, cipher: seq<byte>): Block
    decreases |cipher|
  {
    if |cipher| < 16 then iv else Chain(cipher[..16], cipher[16..])
  }

  lemma {:induction false} DecryptUndoesEncrypt(c: BlockCipher, iv: Block, plain: seq<byte>)
    requires |plain| % 16 == 0
    ensures CbcDec(c, iv, CbcEnc(c, iv, plain)) == plain
    decreases |plain|
  {
    if plain == [] {
    } else {
      var x := XorBlock(plain[..16], iv);
      var y: seq<byte> := c.E(x);
      var rest: seq<byte> := CbcEnc(c, y, plain[16..]);
      assert (y + rest)[..16] == y && (y + rest)[16..] == rest;
      XorBlockCancel(plain[..16], iv);
      DecryptUndoesEncrypt(c, y, plain[16..]);
    }
  }

  lemma {:induction false} EncryptUndoesDecrypt(c: BlockCipher, iv: Block, cipher: seq<byte>)
    requires |cipher| % 16 == 0
    ensures CbcEnc(c, iv, CbcDec(c, iv, cipher)) == cipher
    decreases |cipher|
  {
    if cipher == [] {
    } else {
      var x: seq<byte> := XorBlock(c.D(cipher[..16]), iv);
      var rest: seq<byte> := CbcDec(c, cipher[..16], cipher[16..]);
      assert (x + rest)[..16] == x && (x + rest)[16..] == rest;
      XorBlockCancel(c.D(cipher[..16]), iv);
      EncryptUndoesDecrypt(c, cipher[..16], cipher[16..]);
    }
  }

  /** Encrypting a concatenation is encrypting the parts with the last ciphertext block carried as next iv. */
  lemma {:induction false} EncryptSplits(c: BlockCipher, iv: Block, a: seq<byte>, b: seq<byte>)
    requires |a| % 16 == 0
    ensures CbcEnc(c, iv, a + b) == CbcEnc(c, iv, a) + CbcEnc(c, Chain(iv, CbcEnc(c, iv, a)), b)
    decreases |a|
  {
    if a == [] {
      assert a + b == b;
    } else {
      var y: seq<byte> := c.E(XorBlock(a[..16], iv));
      assert (a + b)[..16] == a[..16] && (a + b)[16..] == a[16..] + b;
      var rest: seq<byte> := CbcEnc(c, y, a[16..]);
      assert (y + rest)[..16] == y && (y + rest)[16..] == rest;
      EncryptSplits(c, y, a[16..], b);
    }
  }

  lemma {:induction false} DecryptSplits(c: BlockCipher, iv: Block, a: seq<byte>, b: seq<byte>)
    requires |a| % 16 == 0
    ensures CbcDec(c, iv, a + b) == CbcDec(c, iv, a) + CbcDec(c, Chain(iv, a), b)
    decreases |a|
  {
    if a == [] {
      assert a + b == b;
    } else {
      assert (a + b)[..16] == a[..16] && (a + b)[16..] == a[16..] + b;
      DecryptSplits(c, a[..16], a[16..], b);
    }
  }

  lemma {:induction false} ChainSplits(iv: Block, a: seq<byte>, b: seq<byte>)
    requires |a| % 16 == 0
    ensures Chain(iv, a + b) == Chain(Chain(iv, a), b)
    decreases |a|
  {
    if a == [] {
      assert a + b == b;
    } else {
      assert (a + b)[..16] == a[..16] && (a + b)[16..] == a[16..] + b;
      ChainSplits(a[..16], a[16..], b);
    }
  }

  // What the chaining does to each block, by bits.

  ghost predicate BitwiseXor(z: Block, a: Block, b: Block) {
    forall j, k: nat :: 0 <= j < 16 && k < 8 ==> (Bit(z[j], k) == 1 <==> (Bit(a[j], k) == 1) != (Bit(b[j], k) == 1))
  }

  lemma XorBlockIsBitwise(a: Block, b: Block)
    ensures BitwiseXor(XorBlock(a, b), a, b)
  {
    hide Xor, Bit;
    forall j | 0 <= j < 16
      ensures forall k: nat :: k < 8 ==> (Bit(XorBlock(a, b)[j], k) == 1 <==> (Bit(a[j], k) == 1) != (Bit(b[j], k) == 1))
    {
      XorIsBitwise(a[j], b[j]);
    }
  }

  /** Block i of a byte sequence. */
  function BlockAt(s: seq<byte>, i: nat): Block
    requires 16 * i + 16 <= |s|
  {
    s[16 * i..16 * i + 16]
  }

  /** What block i is chained with: the ciphertext block before it, and the iv for the first. */
  function Before(iv: Block, cipher: seq<byte>, i: nat): Block
    requires 16 * i <= |cipher|
  {
    if i == 0 then iv else BlockAt(cipher, i - 1)
  }

  /** Some block whose bits are the exclusive or of those of a and b is enciphered to y. */
  ghost predicate Enciphers(c: BlockCipher, a: Block, b: Block, y: Block) {
    exists z: Block :: BitwiseXor(z, a, b) && y == c.E(z)
  }

  lemma FirstEnciphers(c: BlockCipher, iv: Block, p: Block)
    ensures Enciphers(c, p, iv, c.E(XorBlock(p, iv)))
  {
    hide XorBlock, BitwiseXor;
    XorBlockIsBitwise(p, iv);
  }

  /** Block i of a stream with one more block in front. */
  lemma BlockLater(y: Block, rest: seq<byte>, i: nat)
    requires i > 0 && 16 * i <= |rest|
    ensures BlockAt(y + rest, i) == BlockAt(rest, i - 1) && BlockAt(y + rest, 0) == y
    ensures forall iv: Block :: Before(iv, y + rest, i) == Before(y, rest, i - 1)
  {
    var s: seq<byte> := y + rest;
    assert s[16 * i..16 * i + 16] == rest[16 * (i - 1)..16 * (i - 1) + 16];
    assert s[0..16] == y;
    if i > 1 { assert s[16 * (i - 1)..16 * (i - 1) + 16] == rest[16 * (i - 2)..16 * (i - 2) + 16]; }
  }

  /** Every ciphertext block is the image of a block whose bits are the exclusive or of the plaintext block's and of those
      of the ciphertext block before it. */
  lemma {:induction false} EncryptBlocks(c: BlockCipher, iv: Block, plain: seq<byte>, i: nat)
    requires 16 * i + 16 <= |plain|
    ensures var out := CbcEnc(c, iv, plain);
            16 * i + 16 <= |out| && Enciphers(c, BlockAt(plain, i), Before(iv, out, i), BlockAt(out, i))
    decreases i
  {
    hide XorBlock, BitwiseXor, Enciphers, BlockAt, Before;
    var p: Block, more := plain[..16], plain[16..];
    var y: Block := c.E(XorBlock(p, iv));
    var rest := CbcEnc(c, y, more);
    assert plain == p + more;
    if i == 0 {
      FirstEnciphers(c, iv, p);
      FirstBlocks(p, more, iv);
      FirstBlocks(y, rest, iv);
    } else {
      EncryptBlocks(c, y, more, i - 1);
      BlockLater(p, more, i);
      BlockLater(y, rest, i);
    }
  }

  lemma FirstBlocks(y: Block, rest: seq<byte>, iv: Block)
    ensures BlockAt(y + rest, 0) == y && Before(iv, y + rest, 0) == iv
  {
  }

  /** Every plaintext block has as bits the exclusive or of those of the deciphered block and of the ciphertext block
      before it. */
  lemma {:induction false} DecryptBlocks(c: BlockCipher, iv: Block, cipher: seq<byte>, i: nat)
    requires 16 * i + 16 <= |cipher|
    ensures var out := CbcDec(c, iv, cipher);
            16 * i + 16 <= |out| && BitwiseXor(BlockAt(out, i), c.D(BlockAt(cipher, i)), Before(iv, cipher, i))
    decreases i
  {
    hide XorBlock, BitwiseXor, BlockAt, Before;
    var y: Block, more := cipher[..16], cipher[16..];
    var x: Block := XorBlock(c.D(y), iv);
    var rest := CbcDec(c, y, more);
    assert cipher == y + more;
    if i == 0 {
      XorBlockIsBitwise(c.D(y), iv);
      FirstBlocks(y, more, iv);
      FirstBlocks(x, rest, iv);
    } else {
      DecryptBlocks(c, y, more, i - 1);
      BlockLater(y, more, i);
      BlockLater(x, rest, i);
    }
  }

  lemma XorBlockSwap(a: Block, b: Block)
    ensures XorBlock(a, b) == XorBlock(b, a)
  {
    forall i | 0 <= i < 16 ensures XorBlock(a, b)[i] == XorBlock(b, a)[i] { XorSwap(a[i], b[i]); }
  }

  /** The same plaintext under different ivs has different first ciphertext blocks. */
  lemma IvMatters(c: BlockCipher, iv: Block, other: Block, plain: seq<byte>)
    requires |plain| >= 16 && iv != other
    ensures CbcEnc(c, iv, plain)[..16] != CbcEnc(c, other, plain)[..16]
  {
    hide XorBlock;
    var p: Block := plain[..16];
    var x, z := XorBlock(p, iv), XorBlock(p, other);
    XorBlockSwap(p, iv);
    XorBlockSwap(p, other);
    XorBlockCancel(iv, p);
    XorBlockCancel(other, p);
    assert CbcEnc(c, iv, plain)[..16] == c.E(x) && CbcEnc(c, other, plain)[..16] == c.E(z);
    assert c.D(c.E(x)) == x && c.D(c.E(z)) == z;
  }

  /** The first block is chained with at most 16 bytes of the iv given, and zeros after a short one. */
  lemma IvIsCopied(iv: seq<byte>)
    ensures forall j :: 0 <= j < 16 ==> ToBlock(iv)[j] == if j < |iv| then iv[j] else 0
  {
  }

  // The hand-written block loops.

  /** aes.NewCipher: a cipher for every 16, 24 or 32 byte key, an error for any other. */
  type KeySchedule = seq<byte> -> BlockCipher

  predicate KeyLengthOk(key: seq<byte>) {
    |key| in {16, 24, 32}
  }

  /** copy(prev, iv): at most 16 bytes of iv, zeros after a short one. */
  function ToBlock(iv: seq<byte>): Block {
    if |iv| >= 16 then iv[..16] else iv + Zeros(16 - |iv|)
  }

  /** One round: the block combined with prev is enciphered into out and becomes the next prev. */
  method EncryptOne(c: BlockCipher, b: Block, out: array<byte>, i: nat, prev: array<byte>, tmp: array<byte>)
    requires i + 16 <= out.Length && prev.Length == tmp.Length == 16 && out != prev && out != tmp && prev != tmp
    modifies out, prev, tmp
    ensures prev[..] == c.E(XorBlock(b, old(prev[..])))
    ensures out[..i] == old(out[..i]) && out[i..i + 16] == prev[..]
  {
    hide XorBlock;
    XorAt(tmp, 0, b, prev[..]);
    assert tmp[..] == XorBlock(b, prev[..]);
    ghost var done := out[..i];
    CopyAt(out, i, c.E(tmp[..]));
    assert out[..i] == done;
    CopyIn(prev, out[i..i + 16]);
  }

  method CbcEncrypt(aes: KeySchedule, key: seq<byte>, iv: seq<byte>, plain: array<byte>)
    returns (r: Result<array<byte>>)
    ensures r.Err? <==> plain.Length % 16 != 0 || |key| !in {16, 24, 32}
    ensures r.Ok? ==> fresh(r.value) && r.value[..] == CbcEnc(aes(key), ToBlock(iv), plain[..])
  {
    if plain.Length % 16 != 0 { return Err(Unaligned); }
    if !KeyLengthOk(key) { return Err(BadKey); }
    hide CbcEnc, Chain, XorBlock, ToBlock, Xor;
    var c := aes(key);
    NothingChained(c, ToBlock(iv));
    var out := new byte[plain.Length];
    var prev := new byte[16];
    CopyIn(prev, ToBlock(iv));
    var tmp := new byte[16];
    var i := 0;
    while i < plain.Length
      invariant 0 <= i <= plain.Length && i % 16 == 0
      invariant out[..i] == CbcEnc(c, ToBlock(iv), plain[..i])
      invariant prev[..] == Chain(ToBlock(iv), out[..i])
    {
      ghost var done, b := out[..i], plain[i..i + 16];
      EncryptStep(c, ToBlock(iv), plain[..i], b);
      assert plain[..i + 16] == plain[..i] + b;
      EncryptOne(c, plain[i..i + 16], out, i, prev, tmp);
      assert out[..i + 16] == done + prev[..];
      i := i + 16;
    }
    assert plain[..] == plain[..i] && out[..] == out[..i];
    r := Ok(out);
  }

  lemma NothingChained(c: BlockCipher, iv: Block)
    ensures CbcEnc(c, iv, []) == [] && CbcDec(c, iv, []) == [] && Chain(iv, []) == iv
  {
  }

  lemma EncryptStep(c: BlockCipher, iv: Block, a: seq<byte>, b: Block)
    requires |a| % 16 == 0
    ensures var ca := CbcEnc(c, iv, a);
            var y := c.E(XorBlock(b, Chain(iv, ca)));
            CbcEnc(c, iv, a + b) == ca + y && Chain(iv, ca + y) == y
  {
    var ca := CbcEnc(c, iv, a);
    var y := c.E(XorBlock(b, Chain(iv, ca)));
    EncryptSplits(c, iv, a, b);
    ChainSplits(iv, ca, y);
    assert b[..16] == b && y[..16] == y;
  }

  lemma DecryptStep(c: BlockCipher, iv: Block, a: seq<byte>, b: Block)
    requires |a| % 16 == 0
    ensures CbcDec(c, iv, a + b) == CbcDec(c, iv, a) + XorBlock(c.D(b), Chain(iv, a))
    ensures Chain(iv, a + b) == b
  {
    DecryptSplits(c, iv, a, b);
    ChainSplits(iv, a, b);
    assert b[..16] == b;
  }

  method CbcDecrypt(aes: KeySchedule, key: seq<byte>, iv: seq<byte>, cipher: array<byte>)
    returns (r: Result<array<byte>>)
    ensures r.Err? <==> cipher.Length % 16 != 0 || |key| !in {16, 24, 32}
    ensures r.Ok? ==> fresh(r.value) && r.value[..] == CbcDec(aes(key), ToBlock(iv), cipher[..])
  {
    if cipher.Length % 16 != 0 { return Err(Unaligned); }
    if !KeyLengthOk(key) { return Err(BadKey); }
    hide CbcDec, Chain, XorBlock, ToBlock, Xor;
    var c := aes(key);
    NothingChained(c, ToBlock(iv));
    var out := new byte[cipher.Length];
    var prev := new byte[16];
    CopyIn(prev, ToBlock(iv));
    var i := 0;
    while i < cipher.Length
      invariant 0 <= i <= cipher.Length && i % 16 == 0
      invariant out[..i] == CbcDec(c, ToBlock(iv), cipher[..i])
      invariant prev[..] == Chain(ToBlock(iv), cipher[..i])
    {
      var tmp := c.D(cipher[i..i + 16]);
      ghost var done := out[..i];
      XorAt(out, i, tmp, prev[..]);
      assert out[..i] == done && out[..i + 16] == done + XorBlock(tmp, Chain(ToBlock(iv), cipher[..i]));
      CopyIn(prev, cipher[i..i + 16]);
      DecryptStep(c, ToBlock(iv), cipher[..i], cipher[i..i + 16]);
      assert cipher[..i + 16] == cipher[..i] + cipher[i..i + 16];
      i := i + 16;
    }
    assert cipher[..] == cipher[..i] && out[..] == out[..i];
    r := Ok(out);
  }

  /** dst[at + j] = a[j] ^ b[j] for every j. */
  method XorAt(dst: array<byte>, at: nat, a: Block, b: Block)
    requires at + 16 <= dst.Length
    modifies dst
    ensures dst[..] == old(dst[..at]) + XorBlock(a, b) + old(dst[at + 16..])
  {
    for j := 0 to 16
      invariant forall k :: 0 <= k < dst.Length ==>
                  dst[k] == if at <= k < at + j then Xor(a[k - at], b[k - at]) else old(dst[k])
    {
      dst[at + j] := Xor(a[j], b[j]);
    }
  }

  /** copy(dst[at:], src). */
  method CopyAt(dst: array<byte>, at: nat, src: seq<byte>)
    requires at + |src| <= dst.Length
    modifies dst
    ensures dst[at..at + |src|] == src
    ensures forall k :: 0 <= k < at || at + |src| <= k < dst.Length ==> dst[k] == old(dst[k])
  {
    forall k | 0 <= k < |src| {
      dst[at + k] := src[k];
    }
  }

  method CopyIn(dst: array<byte>, src: seq<byte>)
    requires dst.Length == |src|
    modifies dst
    ensures dst[..] == src
  {
    CopyAt(dst, 0, src);
    assert dst[..] == dst[0..|src|];
  }
}
