/** The 32/64 byte packet: type families, encoding, validation and the payload unions. */
module Packets {
  import opened Bytes
  import opened Crypto

  type Name = seq<byte>

  datatype Packet = Packet(typ: byte, id: int32, src: uint32, des: uint32, payload: Block, name: Name, hasName: bool)

  const PT_HELLO: byte := 3
  const PT_BYEBYE: byte := 4
  const PT_HEARTBEAT: byte := 20
  const PT_AWAKE: byte := 21
  const PT_HIDE_MOUSE: byte := 50
  const PT_HEARTBEAT_EX: byte := 51
  const PT_HEARTBEAT_EX_L2: byte := 52
  const PT_HEARTBEAT_EX_L3: byte := 53
  const PT_CLIPBOARD: byte := 69
  const PT_CLIPBOARD_DATA_END: byte := 76
  const PT_CLIPBOARD_ASK: byte := 78
  const PT_CLIPBOARD_PUSH: byte := 79
  const PT_NEXT_MACHINE: byte := 121
  const PT_KEYBOARD: byte := 122
  const PT_MOUSE: byte := 123
  const PT_CLIPBOARD_TEXT: byte := 124
  const PT_CLIPBOARD_IMAGE: byte := 125
  const PT_HANDSHAKE: byte := 126
  const PT_HANDSHAKE_ACK: byte := 127
  const PT_MATRIX: byte := 128

  const ID_NONE: uint32 := 0
  const ID_ALL: uint32 := 255
  const MAX_MACHINE := 4

  /** t &^ 0x06: clears bits 1 and 2. */
  function ClearFlags(t: byte): byte {
    t - t / 2 % 4 * 2
  }

  predicate IsExtended(t: byte) {
    if t >= 0x80 then ClearFlags(t) == PT_MATRIX else
      t in {PT_HELLO, PT_HEARTBEAT, PT_AWAKE, PT_HEARTBEAT_EX, PT_CLIPBOARD, PT_CLIPBOARD_ASK, PT_CLIPBOARD_PUSH,
            PT_CLIPBOARD_TEXT, PT_CLIPBOARD_IMAGE, PT_CLIPBOARD_DATA_END, PT_HANDSHAKE, PT_HANDSHAKE_ACK}
  }

  function Base(t: byte): byte {
    if t >= 0x80 then ClearFlags(t) else t
  }

  /** The wire form is 64 bytes. */
  predicate Extended(p: Packet) {
    IsExtended(p.typ) || p.hasName || p.name != []
  }

  // Encoding.

  function Sum(b: seq<byte>): nat {
    if b == [] then 0 else Sum(b[..|b| - 1]) + b[|b| - 1]
  }

  lemma SumNext(b: seq<byte>, i: nat, s: int)
    requires i < |b| && s == Sum(b[..i]) % 0x1_0000_0000
    ensures (s + b[i]) % 0x1_0000_0000 == Sum(b[..i + 1]) % 0x1_0000_0000
  {
    assert b[..i + 1][..i] == b[..i];
    AddBelow(Sum(b[..i]), b[i]);
  }

  lemma AddBelow(t: int, x: int)
    ensures (t % 0x1_0000_0000 + x) % 0x1_0000_0000 == (t + x) % 0x1_0000_0000
  {
  }

  lemma LowByteStays(t: int)
    ensures t % 0x1_0000_0000 % 0x100 == t % 0x100
  {
    DropHigh(0x100_0000 * (t / 0x1_0000_0000), t % 0x1_0000_0000);
  }

  lemma DropHigh(m: int, r: int)
    ensures (0x100 * m + r) % 0x100 == r % 0x100
  {
  }

  /** The uint32 accumulator may wrap on long inputs; the low byte does not notice. */
  method Checksum(b: seq<byte>) returns (c: byte)
    ensures c == Sum(b) % 0x100
  {
    var s: uint32 := 0;
    assert b[..0] == [];
    hide Sum;
    for i := 0 to |b|
      invariant s == Sum(b[..i]) % 0x1_0000_0000
    {
      SumNext(b, i, s);
      s := (s as int + b[i]) % 0x1_0000_0000;
    }
    assert b[..|b|] == b;
    LowByteStays(Sum(b));
    c := s % 0x100;
  }

  /** 32 bytes: the name cut to 32, then spaces. */
  function Pad(name: Name): (s: seq<byte>)
    ensures |s| == 32
  {
    if |name| >= 32 then name[..32] else name + seq(32 - |name|, _ => 0x20)
  }

  function Unpad(s: seq<byte>): Name {
    TrimRight(TrimRight(s, {0x20, 0}), {0})
  }

  /** What a name becomes by travelling: cut to 32 bytes, then stripped of trailing spaces and NULs. */
  function WireName(name: Name): Name {
    TrimRight(if |name| > 32 then name[..32] else name, {0x20, 0})
  }

  lemma UnpadPad(name: Name)
    ensures Unpad(Pad(name)) == WireName(name)
  {
    var cut := if |name| > 32 then name[..32] else name;
    TrimRightUnique(Pad(name), WireName(name), {0x20, 0});
  }

  /** Names that fit and end in neither a space nor a NUL survive the trip. */
  predicate CleanName(name: Name) {
    |name| <= 32 && (name != [] ==> name[|name| - 1] !in {0x20, 0})
  }

  /** Bytes 4..31. */
  function Fields(p: Packet): (s: seq<byte>)
    ensures |s| == 28
  {
    Le32(ToUint32(p.id)) + Le32(p.src) + Le32(p.des) + p.payload
  }

  /** Bytes 2..31, which the checksum covers: the top half of the magic, then the fields. */
  function Covered(p: Packet, magic: uint32): (s: seq<byte>)
    ensures |s| == 30
  {
    [magic / 0x1_0000 % 0x100, magic / 0x100_0000] + Fields(p)
  }

  function Encoding(p: Packet, magic: uint32): (s: seq<byte>)
    ensures |s| == if Extended(p) then 64 else 32
  {
    [p.typ, Sum(Covered(p, magic)) % 0x100] + Covered(p, magic) + if Extended(p) then Pad(p.name) else []
  }

  method Encode(p: Packet, magic: uint32) returns (buf: array<byte>)
    ensures fresh(buf) && buf[..] == Encoding(p, magic)
  {
    hide Fields, Covered, Encoding, Sum, Pad, Extended;
    var name := if Extended(p) then Pad(p.name) else [];
    buf := new byte[32 + |name|];
    buf[0] := p.typ;
    PutFields(buf, p);
    ghost var fields := buf[4..32];
    CopyAt(buf, 32, name);
    assert buf[4..32] == fields && buf[32..] == name && buf[0] == p.typ;
    buf[3] := magic / 0x100_0000;
    buf[2] := magic / 0x1_0000 % 0x100;
    ghost var s := buf[..];
    assert s[4..32] == fields && s[32..] == name && s[0] == p.typ;
    assert s[3] == magic / 0x100_0000 && s[2] == magic / 0x1_0000 % 0x100;
    CoveredParts(s, p, magic);
    assert buf[2..32] == s[2..32];
    var c := Checksum(buf[2..32]);
    buf[1] := c;
    assert buf[..] == s[1 := c];
    EncodingParts(s, c, p, magic);
  }

  lemma CoveredParts(s: seq<byte>, p: Packet, magic: uint32)
    requires |s| >= 32 && s[4..32] == Fields(p) && s[3] == magic / 0x100_0000 && s[2] == magic / 0x1_0000 % 0x100
    ensures s[2..32] == Covered(p, magic)
  {
    hide Fields;
    assert s[2..32] == [s[2], s[3]] + s[4..32];
  }

  lemma EncodingParts(s: seq<byte>, c: byte, p: Packet, magic: uint32)
    requires |s| == (if Extended(p) then 64 else 32) && s[0] == p.typ && s[2..32] == Covered(p, magic)
    requires s[32..] == (if Extended(p) then Pad(p.name) else []) && c == Sum(Covered(p, magic)) % 0x100
    ensures s[1 := c] == Encoding(p, magic)
  {
    hide Covered, Sum, Pad, Extended;
    assert s[1 := c] == [p.typ, c] + s[2..32] + s[32..];
  }

  method PutFields(buf: array<byte>, p: Packet)
    requires buf.Length >= 32
    modifies buf
    ensures buf[4..32] == Fields(p) && buf[0] == old(buf[0])
  {
    CopyAt(buf, 4, Le32(ToUint32(p.id)));
    CopyAt(buf, 8, Le32(p.src));
    CopyAt(buf, 12, Le32(p.des));
    CopyAt(buf, 16, p.payload);
    assert buf[4..32] == buf[4..8] + buf[8..12] + buf[12..16] + buf[16..32];
  }

  function Decode(raw: seq<byte>, magic: uint32): Result<Packet> {
    if |raw| != 32 && |raw| != 64 then Err(BadSize)
    else if raw[3] != magic / 0x100_0000 || raw[2] != magic / 0x1_0000 % 0x100 then Err(BadMagic)
    else if Sum(raw[2..32]) % 0x100 != raw[1] then Err(BadChecksum)
    else Ok(Packet(raw[0], ToInt32(FromLe32(raw[4..8])), FromLe32(raw[8..12]), FromLe32(raw[12..16]), raw[16..32],
                   if |raw| == 64 then Unpad(raw[32..64]) else [], |raw| == 64))
  }

  /** What the receiver makes of a packet: the name normalised, hasName recording the wire form. */
  function OnWire(p: Packet): Packet {
    p.(name := WireName(p.name), hasName := Extended(p))
  }

  /** Decoding inverts encoding, and a receiver with another key accepts it exactly when the top 16 magic bits agree. */
  lemma DecodeEncode(p: Packet, magic: uint32, theirs: uint32)
    ensures Decode(Encoding(p, magic), theirs) ==
            if magic / 0x1_0000 == theirs / 0x1_0000 then Ok(OnWire(p)) else Err(BadMagic)
  {
    var raw, cov := Encoding(p, magic), Covered(p, magic);
    assert raw[2..32] == cov && raw[3] == cov[1] && raw[2] == cov[0];
    assert raw[4..8] == Le32(ToUint32(p.id)) && raw[8..12] == Le32(p.src) && raw[12..16] == Le32(p.des);
    assert raw[16..32] == p.payload;
    Int32RoundTrip(p.id);
    Le32RoundTrip(ToUint32(p.id));
    Le32RoundTrip(p.src);
    Le32RoundTrip(p.des);
    MagicHalves(magic, theirs);
    if Extended(p) {
      assert raw[32..64] == Pad(p.name);
      UnpadPad(p.name);
    }
  }

  lemma MagicHalves(a: uint32, b: uint32)
    ensures a / 0x1_0000 == b / 0x1_0000 <==> a / 0x100_0000 == b / 0x100_0000 && a / 0x1_0000 % 0x100 == b / 0x1_0000 % 0x100
  {
    assert a / 0x1_0000 == a / 0x100_0000 * 0x100 + a / 0x1_0000 % 0x100;
    assert b / 0x1_0000 == b / 0x100_0000 * 0x100 + b / 0x1_0000 % 0x100;
  }

  lemma {:induction false} SumUpdate(s: seq<byte>, i: nat, x: byte)
    requires i < |s|
    ensures Sum(s[i := x]) == Sum(s) - s[i] + x
  {
    var n := |s| - 1;
    if i == n {
      assert s[i := x][..n] == s[..n];
    } else {
      assert s[i := x][..n] == s[..n][i := x];
      SumUpdate(s[..n], i, x);
    }
  }

  /** Changing any single one of bytes 1..31 of an accepted packet gets it rejected. */
  lemma CorruptionDetected(raw: seq<byte>, magic: uint32, i: nat, x: byte)
    requires Decode(raw, magic).Ok? && 1 <= i < 32 && x != raw[i]
    ensures Decode(raw[i := x], magic).Err?
  {
    var bad := raw[i := x];
    if i == 1 {
      assert bad[2..32] == raw[2..32];
    } else if i >= 4 {
      assert bad[2..32] == raw[2..32][i - 2 := x];
      SumUpdate(raw[2..32], i - 2, x);
      LowByteMoves(Sum(raw[2..32]), Sum(bad[2..32]));
    }
  }

  lemma LowByteMoves(a: nat, b: nat)
    requires a != b && -0x100 < a - b < 0x100
    ensures a % 0x100 != b % 0x100
  {
  }

  // Payload unions: setters write the 16 byte payload buffer, getters read it.

  type int64 = x: int | -0x8000_0000_0000_0000 <= x < 0x8000_0000_0000_0000

  datatype KeyEvent = KeyEvent(dateTime: int64, vk: int32, flags: int32)
  datatype MouseEvent = MouseEvent(x: int32, y: int32, wheelDelta: int32, flags: int32)

  function KeyBytes(k: KeyEvent): Block {
    var t := k.dateTime % 0x1_0000_0000_0000_0000;
    Le32(t % 0x1_0000_0000) + Le32(t / 0x1_0000_0000) + Le32(ToUint32(k.vk)) + Le32(ToUint32(k.flags))
  }

  function MouseBytes(m: MouseEvent): Block {
    Le32(ToUint32(m.x)) + Le32(ToUint32(m.y)) + Le32(ToUint32(m.wheelDelta)) + Le32(ToUint32(m.flags))
  }

  method SetKey(payload: array<byte>, k: KeyEvent)
    requires payload.Length == 16
    modifies payload
    ensures payload[..] == KeyBytes(k)
  {
    hide Le32, ToUint32;
    var t := k.dateTime % 0x1_0000_0000_0000_0000;
    CopyAt(payload, 0, Le32(t % 0x1_0000_0000) + Le32(t / 0x1_0000_0000));
    CopyAt(payload, 8, Le32(ToUint32(k.vk)));
    CopyAt(payload, 12, Le32(ToUint32(k.flags)));
    assert payload[..] == payload[0..8] + payload[8..12] + payload[12..16];
  }

  method SetMouse(payload: array<byte>, m: MouseEvent)
    requires payload.Length == 16
    modifies payload
    ensures payload[..] == MouseBytes(m)
  {
    hide Le32, ToUint32;
    CopyAt(payload, 0, Le32(ToUint32(m.x)));
    CopyAt(payload, 4, Le32(ToUint32(m.y)));
    CopyAt(payload, 8, Le32(ToUint32(m.wheelDelta)));
    CopyAt(payload, 12, Le32(ToUint32(m.flags)));
    assert payload[..] == payload[0..4] + payload[4..8] + payload[8..12] + payload[12..16];
  }

  /** Writes the post action and clears the rest. */
  method SetPostAction(payload: array<byte>, a: int32)
    requires payload.Length == 16
    modifies payload
    ensures payload[..] == PostActionBytes(a)
  {
    CopyAt(payload, 0, Le32(ToUint32(a)));
    for i := 4 to 16
      invariant payload[..i] == Le32(ToUint32(a)) + Zeros(i - 4)
    {
      payload[i] := 0;
    }
    assert payload[..] == payload[..16];
  }

  function PostActionBytes(a: int32): Block {
    Le32(ToUint32(a)) + Zeros(12)
  }

  function GetInt32(payload: Block, at: nat): int32
    requires at <= 12
  {
    ToInt32(FromLe32(payload[at..at + 4]))
  }

  function GetKey(payload: Block): KeyEvent {
    var t := FromLe32(payload[0..4]) as int + 0x1_0000_0000 * FromLe32(payload[4..8]);
    KeyEvent(if t < 0x8000_0000_0000_0000 then t else t - 0x1_0000_0000_0000_0000,
             GetInt32(payload, 8), GetInt32(payload, 12))
  }

  function GetMouse(payload: Block): MouseEvent {
    MouseEvent(GetInt32(payload, 0), GetInt32(payload, 4), GetInt32(payload, 8), GetInt32(payload, 12))
  }

  function GetPostAction(payload: Block): int32 {
    GetInt32(payload, 0)
  }

  lemma Int32Field(payload: Block, at: nat, i: int32)
    requires at <= 12 && payload[at..at + 4] == Le32(ToUint32(i))
    ensures GetInt32(payload, at) == i
  {
    Le32RoundTrip(ToUint32(i));
    Int32RoundTrip(i);
  }

  lemma Signed64(i: int64)
    ensures var t := i % 0x1_0000_0000_0000_0000;
            i == if t < 0x8000_0000_0000_0000 then t else t - 0x1_0000_0000_0000_0000
    ensures var t := i % 0x1_0000_0000_0000_0000;
            t / 0x1_0000_0000 < 0x1_0000_0000 && t % 0x1_0000_0000 + 0x1_0000_0000 * (t / 0x1_0000_0000) == t
  {
  }

  lemma KeyRoundTrip(k: KeyEvent)
    ensures GetKey(KeyBytes(k)) == k
  {
    hide Le32, FromLe32, ToInt32, ToUint32, GetInt32;
    Signed64(k.dateTime);
    var t := k.dateTime % 0x1_0000_0000_0000_0000;
    var b := KeyBytes(k);
    assert b[0..4] == Le32(t % 0x1_0000_0000) && b[4..8] == Le32(t / 0x1_0000_0000);
    assert b[8..12] == Le32(ToUint32(k.vk)) && b[12..16] == Le32(ToUint32(k.flags));
    Le32RoundTrip(t % 0x1_0000_0000);
    Le32RoundTrip(t / 0x1_0000_0000);
    Int32Field(b, 8, k.vk);
    Int32Field(b, 12, k.flags);
  }

  lemma MouseRoundTrip(m: MouseEvent)
    ensures GetMouse(MouseBytes(m)) == m
  {
    var b := MouseBytes(m);
    Int32Field(b, 0, m.x);
    Int32Field(b, 4, m.y);
    Int32Field(b, 8, m.wheelDelta);
    Int32Field(b, 12, m.flags);
  }

  lemma PostActionRoundTrip(a: int32)
    ensures GetPostAction(PostActionBytes(a)) == a
  {
    Int32Field(PostActionBytes(a), 0, a);
  }

  /** A NextMachine packet is a mouse payload whose fields carry the entry point and the destination. */
  function NextMachineBytes(entryX: int, entryY: int, dest: uint32): Block {
    MouseBytes(MouseEvent(ToInt32(entryX), ToInt32(entryY), ToInt32(dest), 0))
  }

  function GetNextMachine(payload: Block): (int, int, uint32) {
    var m := GetMouse(payload);
    (m.x, m.y, ToUint32(m.wheelDelta))
  }

  /** The destination always survives; the entry point does exactly when both coordinates fit in an int32. */
  lemma NextMachineRoundTrip(x: int, y: int, dest: uint32)
    ensures GetNextMachine(NextMachineBytes(x, y, dest)).2 == dest
    ensures GetNextMachine(NextMachineBytes(x, y, dest)) == (x, y, dest) <==>
            -0x8000_0000 <= x < 0x8000_0000 && -0x8000_0000 <= y < 0x8000_0000
  {
    MouseRoundTrip(MouseEvent(ToInt32(x), ToInt32(y), ToInt32(dest), 0));
    ToInt32Fits(x);
    ToInt32Fits(y);
    Uint32RoundTrip(dest);
  }

  const MOVE_MOUSE_RELATIVE := 100000

  function RelativeDelta(d: int): int32 {
    ToInt32(if d >= 0 then d + MOVE_MOUSE_RELATIVE else d - MOVE_MOUSE_RELATIVE)
  }

  predicate IsRelative(m: MouseEvent) {
    || m.x >= MOVE_MOUSE_RELATIVE || m.x <= -MOVE_MOUSE_RELATIVE
    || m.y >= MOVE_MOUSE_RELATIVE || m.y <= -MOVE_MOUSE_RELATIVE
  }

  /** How the receiving daemon takes the marker off again. */
  function DeltaOf(v: int32): int {
    if v >= 0 then v - MOVE_MOUSE_RELATIVE else v + MOVE_MOUSE_RELATIVE
  }

  /** The receiver recovers the delta exactly when delta plus marker fits in an int32, and then sees it as relative. */
  lemma RelativeDeltaRoundTrip(d: int)
    ensures DeltaOf(RelativeDelta(d)) == d <==>
            -0x8000_0000 + MOVE_MOUSE_RELATIVE <= d < 0x8000_0000 - MOVE_MOUSE_RELATIVE
    ensures DeltaOf(RelativeDelta(d)) == d ==> RelativeDelta(d) == if d >= 0 then d + 100000 else d - 100000
    ensures DeltaOf(RelativeDelta(d)) == d ==> forall m: MouseEvent :: m.x == RelativeDelta(d) ==> IsRelative(m)
  {
  }
}
