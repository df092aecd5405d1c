/** The secondary clipboard transfer: a 1024 byte text header, then the payload in whole cipher blocks. */
module Transfer {
  import opened Bytes
  import opened Crypto
  import opened Packets
  import opened Stream
  import opened Framing
  import opened Utf16

  const HEADER_LEN := 1024
  const MAX_TRANSFER_BYTES := 100 * 0x10_0000
  const STRIDE := 0x10_0000
  const STAR: Rune := 42

  type Text = seq<Rune>

  // The "<size>*<name>" header.

  function HeaderText(size: int64, name: Text): Text {
    FormatInt(size) + [STAR] + name
  }

  predicate HeaderFits(size: int64, name: Text) {
    |EncodeUTF16LE(HeaderText(size, name))| <= HEADER_LEN
  }

  function BuildSecondaryHeader(size: int64, name: Text): (r: Result<seq<byte>>)
    ensures r.Ok? <==> HeaderFits(size, name)
    ensures r.Ok? ==> |r.value| == 1024
  {
    var raw := EncodeUTF16LE(HeaderText(size, name));
    if |raw| > HEADER_LEN then Err(HeaderTooLong) else Ok(raw + Zeros(HEADER_LEN - |raw|))
  }

  /** The position of the first star, or |s|. */
  function FirstStar(s: Text): (k: nat)
    ensures k <= |s| && (k < |s| ==> s[k] == STAR) && forall i :: 0 <= i < k ==> s[i] != STAR
  {
    if s == [] || s[0] == STAR then 0 else 1 + FirstStar(s[1..])
  }

  function ParseSecondaryHeader(h: seq<byte>): Result<(nat, Text)> {
    if |h| != HEADER_LEN then Err(BadHeader) else
      var s := TrimRight(DecodeUTF16LE(h), {0});
      var star := FirstStar(s);
      if star == |s| then Err(BadHeader) else
        match ParseInt(s[..star])
        case None => Err(BadHeader)
        case Some(size) => if size < 0 || size > MAX_TRANSFER_BYTES then Err(BadHeader) else Ok((size, s[star + 1..]))
  }

  lemma HeaderDecodes(size: int64, name: Text)
    requires HeaderFits(size, name)
    ensures TrimRight(DecodeUTF16LE(BuildSecondaryHeader(size, name).value), {0}) ==
            FormatInt(size) + [STAR] + TrimRight(name, {0})
  {
    hide EncodeUTF16LE, DecodeUTF16LE, FormatInt;
    var text := HeaderText(size, name);
    var pad := (HEADER_LEN - |EncodeUTF16LE(text)|) / 2;
    EncodedEven(text);
    PaddedTextRoundTrip(text, pad);
    TrimRightUnique(text + seq(pad, _ => 0), FormatInt(size) + [STAR] + TrimRight(name, {0}), {0});
  }

  lemma StarAfterNumber(size: int, rest: Text)
    ensures var s, n := FormatInt(size) + [STAR] + rest, |FormatInt(size)|;
            FirstStar(s) == n < |s| && s[..n] == FormatInt(size) && s[n + 1..] == rest
  {
    hide FormatInt;
    NumberHasNoStar(size);
    var s, n := FormatInt(size) + [STAR] + rest, |FormatInt(size)|;
    assert s[n] == STAR && forall i :: 0 <= i < n ==> s[i] == FormatInt(size)[i];
  }

  /** A built header parses to its size and its name without trailing NULs, unless the size is out of range. */
  lemma HeaderRoundTrip(size: int64, name: Text)
    requires HeaderFits(size, name)
    ensures ParseSecondaryHeader(BuildSecondaryHeader(size, name).value) ==
            if 0 <= size <= 104857600 then Ok((size, TrimRight(name, {0}))) else Err(BadHeader)
  {
    hide BuildSecondaryHeader, HeaderFits, DecodeUTF16LE, FormatInt, ParseInt, FirstStar, TrimRight;
    HeaderDecodes(size, name);
    StarAfterNumber(size, TrimRight(name, {0}));
    DecimalRoundTrip(size);
  }

  lemma EncodedEven(s: Text)
    ensures |EncodeUTF16LE(s)| % 2 == 0
  {
  }

  lemma NumberHasNoStar(n: int)
    ensures forall i :: 0 <= i < |FormatInt(n)| ==> FormatInt(n)[i] != STAR
  {
  }

  /** So a legal size comes back always, and the name exactly when it does not end in a NUL; stars are no obstacle. */
  lemma NameRoundTrip(size: int64, name: Text)
    requires HeaderFits(size, name) && 0 <= size <= MAX_TRANSFER_BYTES
    ensures ParseSecondaryHeader(BuildSecondaryHeader(size, name).value) == Ok((size, name)) <==>
            (name != [] ==> name[|name| - 1] != 0)
  {
    HeaderRoundTrip(size, name);
    if name == [] || name[|name| - 1] != 0 {
      TrimRightUnique(name, name, {0});
    }
  }

  // The payload.

  function Padded(data: seq<byte>): (s: seq<byte>)
    ensures |s| == Align16(|data|)
  {
    data + Zeros(Align16(|data|) - |data|)
  }

  /** The plaintext of one whole transfer. */
  function TransferPlain(name: Text, data: seq<byte>): seq<byte>
    requires |data| <= MAX_TRANSFER_BYTES && HeaderFits(|data|, name)
  {
    BuildSecondaryHeader(|data|, name).value + Padded(data)
  }

  method SendTransfer(sc: SecureConn, name: Text, data: seq<byte>) returns (r: Result<()>)
    requires sc.Valid()
    modifies sc`encIV, sc`sent, sc.outbound`bytes
    ensures sc.Valid() && sc.Unread() == old(sc.Unread())
    ensures |data| > MAX_TRANSFER_BYTES ==> r == Err(TooBig)
    ensures |data| <= MAX_TRANSFER_BYTES && !HeaderFits(|data|, name) ==> r == Err(HeaderTooLong)
    ensures |data| <= MAX_TRANSFER_BYTES && HeaderFits(|data|, name) ==> r.Ok?
    ensures sc.sent == if r.Ok? then old(sc.sent) + TransferPlain(name, data) else old(sc.sent)
  {
    hide BuildSecondaryHeader, HeaderFits, SecureConn.Valid, SecureConn.ValidOut, SecureConn.Unread, SecureConn.Incoming, Padded;
    if |data| > MAX_TRANSFER_BYTES { return Err(TooBig); }
    var hdr := BuildSecondaryHeader(|data|, name);
    if hdr.Err? { return Err(HeaderTooLong); }
    r := sc.WriteRaw(hdr.value);
    ghost var start := sc.sent;
    NothingWritten(data, start);
    var off := 0;
    while off < |data|
      invariant 0 <= off <= |data| && (off % STRIDE == 0 || off == |data|)
      invariant sc.Valid() && sc.Unread() == old(sc.Unread()) && r.Ok?
      invariant sc.sent == start + WrittenUpTo(data, off)
    {
      var end := if off + STRIDE > |data| then |data| else off + STRIDE;
      var chunk := data[off..end];
      if end == |data| && |chunk| % 16 != 0 {
        chunk := chunk + Zeros(16 - |chunk| % 16);
      }
      StrideWritten(data, off, end, start);
      r := sc.WriteRaw(chunk);
      off := end;
    }
  }

  /** The payload plaintext out after `off` data bytes: padded once it is all there. */
  ghost function WrittenUpTo(data: seq<byte>, off: nat): seq<byte>
    requires off <= |data|
  {
    if off == |data| then Padded(data) else data[..off]
  }

  lemma NothingWritten(data: seq<byte>, start: seq<byte>)
    ensures start == start + WrittenUpTo(data, 0)
  {
  }

  lemma StrideRemainder(len: nat, off: nat, end: nat)
    requires off < len && off % STRIDE == 0 && end == if off + STRIDE > len then len else off + STRIDE
    ensures (end - off) % 16 == end % 16 && (end < len ==> end % STRIDE == 0 && end % 16 == 0)
    ensures end == len ==> Align16(len) - len == if len % 16 == 0 then 0 else 16 - len % 16
  {
    hide Align16;
    StrideBlocks(off);
    if end < len { StrideBlocks(end); }
    Align16Is(len);
    SameRemainder(end, off / 16);
  }

  lemma SameRemainder(a: int, q: int)
    ensures (a - 16 * q) % 16 == a % 16
  {
  }

  lemma Align16Is(n: nat)
    ensures Align16(n) == if n % 16 == 0 then n else n - n % 16 + 16
  {
  }

  lemma StrideBlocks(n: nat)
    requires n % STRIDE == 0
    ensures n % 16 == 0
  {
    assert n == 16 * (0x1_0000 * (n / STRIDE));
  }

  lemma StrideWritten(data: seq<byte>, off: nat, end: nat, start: seq<byte>)
    requires off < |data| && off % STRIDE == 0 && end == if off + STRIDE > |data| then |data| else off + STRIDE
    ensures var rem := (end - off) % 16;
            var chunk := if end == |data| && rem != 0 then data[off..end] + Zeros(16 - rem) else data[off..end];
            |chunk| % 16 == 0 && start + WrittenUpTo(data, off) + chunk == start + WrittenUpTo(data, end)
    ensures end % STRIDE == 0 || end == |data|
  {
    hide Align16;
    StrideRemainder(|data|, off, end);
    var rem := (end - off) % 16;
    assert data[..end] == data[..off] + data[off..end];
    assert end == |data| && rem != 0 ==> |data[off..end] + Zeros(16 - rem)| % 16 == 0;
  }

  /** How a payload read of n bytes stands when `remaining` are missing: u was ahead at its start, `unread` is now. */
  ghost predicate Ahead(u: seq<byte>, n: nat, remaining: nat, unread: seq<byte>) {
    && remaining <= n && n - remaining <= |u|
    && if remaining > 0 then (n - remaining) % 16 == 0 && unread == u[n - remaining..]
       else Align16(n) <= |u| && unread == u[Align16(n)..]
  }

  lemma AllAhead(u: seq<byte>, n: nat)
    ensures Ahead(u, n, n, u)
  {
  }

  /** One read of readExact or readStream: up to a stride of whole blocks, or the one padded block at the end. */
  method ReadPiece(sc: SecureConn, n: nat, remaining: nat, ghost u: seq<byte>, ghost got: seq<byte>)
    returns (r: Result<seq<byte>>)
    requires sc.Valid() && remaining > 0 && Ahead(u, n, remaining, sc.Unread()) && got == u[..n - remaining]
    modifies sc`decIV, sc`ended, sc.inbound`taken
    ensures sc.Valid()
    ensures r.Err? ==> r == Err(Eof) && sc.Unread() == [] && Align16(n) > |u|
    ensures r.Ok? ==> 0 < |r.value| <= remaining
    ensures r.Ok? ==> Ahead(u, n, remaining - |r.value|, sc.Unread()) && got + r.value == u[..n - remaining + |r.value|]
  {
    hide SecureConn.Valid, SecureConn.ValidOut, SecureConn.Unread, SecureConn.Incoming, Align16;
    var take := if remaining > STRIDE then STRIDE else remaining;
    var aligned := take - take % 16;
    PieceSize(n, remaining, take);
    if aligned > 0 {
      if n - remaining + aligned <= |u| { SliceOfDrop(u, n - remaining, aligned, aligned); }
      r := sc.ReadRaw(aligned);
    } else {
      if n - remaining + 16 <= |u| { SliceOfDrop(u, n - remaining, 16, remaining); }
      r := sc.ReadRaw(16);
      if r.Ok? {
        r := Ok(r.value[..remaining]);
      }
    }
  }

  lemma PieceSize(n: nat, remaining: nat, take: nat)
    requires 0 < remaining <= n && (n - remaining) % 16 == 0 && take == if remaining > STRIDE then STRIDE else remaining
    ensures var done, aligned := n - remaining, take - take % 16;
            && 0 <= aligned <= remaining && aligned % 16 == 0
            && (0 < aligned < remaining ==> (done + aligned) % 16 == 0 && done + aligned <= Align16(n))
            && (aligned == remaining ==> Align16(n) == n)
            && (aligned == 0 ==> remaining < 16 && Align16(n) == done + 16)
  {
    hide Align16;
    var done, aligned := n - remaining, take - take % 16;
    Align16Is(n);
    SameRemainder(remaining, -(done / 16));
    assert n % 16 == remaining % 16;
    SameRemainder(done, -(aligned / 16));
  }

  method ReadExact(sc: SecureConn, n: nat) returns (r: Result<seq<byte>>)
    requires sc.Valid()
    modifies sc`decIV, sc`ended, sc.inbound`taken
    ensures sc.Valid()
    ensures Align16(n) <= |old(sc.Unread())| ==>
              r == Ok(old(sc.Unread())[..n]) && sc.Unread() == old(sc.Unread())[Align16(n)..]
    ensures Align16(n) > |old(sc.Unread())| ==> r == Err(Eof) && sc.Unread() == []
  {
    hide SecureConn.Valid, SecureConn.ValidOut, SecureConn.Unread, SecureConn.Incoming, Align16, Ahead;
    ghost var u := sc.Unread();
    var out, remaining := [], n;
    AllAhead(u, n);
    while remaining > 0
      invariant 0 <= remaining <= n && sc.Valid() && Ahead(u, n, remaining, sc.Unread())
      invariant n - remaining <= |u| && out == u[..n - remaining]
    {
      r := ReadPiece(sc, n, remaining, u, out);
      if r.Err? { return; }
      out := out + r.value;
      remaining := remaining - |r.value|;
      ReadSoFar(u, n, remaining, sc.Unread());
    }
    ReadSoFar(u, n, 0, sc.Unread());
    r := Ok(out);
  }

  lemma ReadSoFar(u: seq<byte>, n: nat, remaining: nat, unread: seq<byte>)
    requires Ahead(u, n, remaining, unread)
    ensures n - remaining <= |u|
    ensures remaining == 0 ==> Align16(n) <= |u| && unread == u[Align16(n)..]
  {
  }

  /** Where readStream writes: a file being received. */
  class FileSink {
    var data: seq<byte>

    constructor ()
      ensures data == []
    {
      data := [];
    }

    method Write(raw: seq<byte>)
      modifies this
      ensures data == old(data) + raw
    {
      data := data + raw;
    }
  }

  /** The same discipline streaming into a file; on failure the file holds a prefix of the payload. */
  method ReadStream(sc: SecureConn, n: nat, w: FileSink) returns (r: Result<()>, received: nat)
    requires sc.Valid() && w.data == []
    modifies sc`decIV, sc`ended, sc.inbound`taken, w
    ensures sc.Valid()
    ensures Align16(n) <= |old(sc.Unread())| ==>
              && r == Ok(()) && received == n
              && w.data == old(sc.Unread())[..n]
              && sc.Unread() == old(sc.Unread())[Align16(n)..]
    ensures Align16(n) > |old(sc.Unread())| ==>
              r == Err(Eof) && sc.Unread() == [] && received <= |old(sc.Unread())| && w.data == old(sc.Unread())[..received]
  {
    hide SecureConn.Valid, SecureConn.ValidOut, SecureConn.Unread, SecureConn.Incoming, Align16, Ahead;
    ghost var u := sc.Unread();
    var remaining := n;
    received := 0;
    AllAhead(u, n);
    while remaining > 0
      invariant 0 <= remaining <= n && sc.Valid() && received == n - remaining && Ahead(u, n, remaining, sc.Unread())
      invariant received <= |u| && w.data == u[..received]
    {
      var raw := ReadPiece(sc, n, remaining, u, w.data);
      if raw.Err? { return Err(raw.error), received; }
      w.Write(raw.value);
      received := received + |raw.value|;
      remaining := remaining - |raw.value|;
      ReadSoFar(u, n, remaining, sc.Unread());
    }
    ReadSoFar(u, n, 0, sc.Unread());
    r := Ok(());
  }
}
