/** The encrypted stream: cipher state that chains over the whole life of a connection. */
module Stream {
  import opened Bytes
  import opened Crypto

  /** One direction of a TCP connection: everything ever written, and how much of it was read. */
  class Wire {
    var bytes: seq<byte>
    var taken: nat

    constructor ()
      ensures bytes == [] && taken == 0
    {
      bytes, taken := [], 0;
    }
  }

  class SecureConn {
    const encCipher: BlockCipher
    const decCipher: BlockCipher
    const outbound: Wire
    const inbound: Wire
    var encIV: Block   // chaining state of the outbound encrypter
    var decIV: Block   // chaining state of the inbound decrypter
    var ended: bool    // a read met the end of the stream

    ghost const encIV0: Block
    ghost const decIV0: Block
    ghost var sent: seq<byte>  // all plaintext written so far

    ghost predicate Valid()
      reads this, outbound, inbound
    {
      && outbound != inbound
      && ValidOut()
      && inbound.taken <= |inbound.bytes|
      && (!ended ==> inbound.taken % 16 == 0 && decIV == Chain(decIV0, inbound.bytes[..inbound.taken]))
    }

    /** The writing half: the ciphertext history is one chained encryption of `sent`. */
    ghost predicate ValidOut()
      reads this, outbound
    {
      && |sent| % 16 == 0
      && outbound.bytes == CbcEnc(encCipher, encIV0, sent)
      && encIV == Chain(encIV0, outbound.bytes)
    }

    /** The plaintext this side would get by decrypting the inbound history in one piece. */
    ghost function Incoming(): seq<byte>
      reads this, inbound
    {
      CbcDec(decCipher, decIV0, inbound.bytes)
    }

    /** The plaintext not read yet; nothing once the stream has ended. */
    ghost function Unread(): seq<byte>
      requires Valid()
      reads this, outbound, inbound
    {
      if ended then [] else Incoming()[inbound.taken..]
    }

    constructor (encCipher: BlockCipher, encIV: Block, decCipher: BlockCipher, decIV: Block, outbound: Wire, inbound: Wire)
      requires outbound != inbound && outbound.bytes == [] && inbound.taken == 0
      ensures Valid() && !ended && sent == []
      ensures this.encCipher == encCipher && this.decCipher == decCipher
      ensures encIV0 == encIV && decIV0 == decIV && this.outbound == outbound && this.inbound == inbound
    {
      this.encCipher, this.encIV, this.encIV0 := encCipher, encIV, encIV;
      this.decCipher, this.decIV, this.decIV0 := decCipher, decIV, decIV;
      this.outbound, this.inbound := outbound, inbound;
      sent, ended := [], false;
    }

    method WriteRaw(plain: seq<byte>) returns (r: Result<()>)
      requires Valid()
      modifies this`encIV, this`sent, outbound`bytes
      ensures Valid()
      ensures r.Err? <==> |plain| % 16 != 0
      ensures sent == if r.Ok? then old(sent) + plain else old(sent)
      ensures r.Err? ==> unchanged(this, outbound)
      ensures Unread() == old(Unread())
    {
      if |plain| % 16 != 0 { return Err(Unaligned); }
      var out := CbcEnc(encCipher, encIV, plain);
      EncryptSplits(encCipher, encIV0, sent, plain);
      ChainSplits(encIV0, outbound.bytes, out);
      encIV := Chain(encIV, out);
      outbound.bytes := outbound.bytes + out;
      sent := sent + plain;
      r := Ok(());
    }

    /** Reads exactly n decrypted bytes; a stream that ends before that is lost to this side. */
    method ReadRaw(n: nat) returns (r: Result<seq<byte>>)
      requires Valid()
      modifies this`decIV, this`ended, inbound`taken
      ensures Valid()
      ensures n % 16 != 0 ==> r == Err(Unaligned) && unchanged(this, inbound)
      ensures n % 16 == 0 && n <= |old(Unread())| ==>
                r == Ok(old(Unread())[..n]) && Unread() == old(Unread())[n..] && ended == old(ended)
      ensures n % 16 == 0 && n > |old(Unread())| ==> r == Err(Eof) && ended && Unread() == []
    {
      if n % 16 != 0 { return Err(Unaligned); }
      if n == 0 { return Ok([]); }
      if ended { return Err(Eof); }
      ReadAdvances(decCipher, decIV0, decIV, inbound.bytes, inbound.taken, n);
      if n > |inbound.bytes| - inbound.taken {
        ended, inbound.taken := true, |inbound.bytes|;
        return Err(Eof);
      }
      var tmp := inbound.bytes[inbound.taken..inbound.taken + n];
      r := Ok(CbcDec(decCipher, decIV, tmp));
      decIV := Chain(decIV, tmp);
      inbound.taken := inbound.taken + n;
    }
  }

  /** Decrypting the next n bytes with the carried iv gives the next n bytes of the whole decryption. */
  lemma ReadAdvances(c: BlockCipher, iv0: Block, iv: Block, bytes: seq<byte>, t: nat, n: nat)
    requires t % 16 == 0 && n % 16 == 0 && t <= |bytes| && iv == Chain(iv0, bytes[..t])
    ensures (t + n) % 16 == 0
    ensures var all := CbcDec(c, iv0, bytes);
            && t <= |all| <= |bytes|
            && (t + n <= |bytes| <==> n <= |all[t..]|)
            && (t + n <= |bytes| ==>
                  && CbcDec(c, iv, bytes[t..t + n]) == all[t..][..n]
                  && Chain(iv, bytes[t..t + n]) == Chain(iv0, bytes[..t + n])
                  && all[t..][n..] == all[t + n..])
  {
    AlignedFits(t, n, |bytes|);
    AlignedFits(t, 0, |bytes|);
    if t + n <= |bytes| {
      var head, mid, tail := bytes[..t], bytes[t..t + n], bytes[t + n..];
      assert bytes == head + (mid + tail);
      assert bytes[..t + n] == head + mid;
      DecryptSplits(c, iv0, head, mid + tail);
      DecryptSplits(c, iv, mid, tail);
      ChainSplits(iv0, head, mid);
    }
  }

  /** w's output is what r reads: same bytes, same key, same starting iv. */
  ghost predicate Feeds(w: SecureConn, r: SecureConn) {
    w.outbound == r.inbound && w.encCipher == r.decCipher && w.encIV0 == r.decIV0
  }

  /** However the writer cut its writes and the reader its reads, the reader still has exactly the unread rest ahead. */
  lemma ReaderSeesWriter(w: SecureConn, r: SecureConn)
    requires w.ValidOut() && r.Valid() && Feeds(w, r) && !r.ended
    ensures r.Incoming() == w.sent
    ensures r.inbound.taken <= |w.sent| && r.Unread() == w.sent[r.inbound.taken..]
  {
    DecryptUndoesEncrypt(w.encCipher, w.encIV0, w.sent);
  }

  /** A reader that was consistent when its writer had sent `before` is still so after the writer has sent more. */
  lemma ReaderSurvives(w: SecureConn, r: SecureConn, before: seq<byte>)
    requires w.ValidOut() && r.ValidOut() && w.outbound == r.inbound != r.outbound
    requires before <= w.sent && |before| % 16 == 0
    requires r.inbound.taken <= |before|
    requires !r.ended ==>
               r.inbound.taken % 16 == 0 && r.decIV == Chain(r.decIV0, CbcEnc(w.encCipher, w.encIV0, before)[..r.inbound.taken])
    ensures r.Valid()
  {
    var cipher := CbcEnc(w.encCipher, w.encIV0, before);
    assert w.sent == before + w.sent[|before|..];
    EncryptSplits(w.encCipher, w.encIV0, before, w.sent[|before|..]);
    assert r.inbound.bytes[..r.inbound.taken] == cipher[..r.inbound.taken];
  }
}
