/** A whole secondary-channel session: header packets both ways, then one transfer. */
module Session {
  import opened Bytes
  import opened Crypto
  import opened Packets
  import opened Stream
  import opened Framing
  import opened Utf16
  import opened Transfer

  /** unicode.ToLower on one rune, and inflating a payload to text: both are taken as they come. */
  datatype Library = Library(lower: Rune -> Rune, inflate: seq<byte> -> Option<Text>)

  datatype Received =
    | GotText(name: Text, text: Text)
    | GotImage(name: Text, data: seq<byte>)
    | GotFile(name: Text, data: seq<byte>)
    | GotError(message: Text)

  datatype Kind = KindText | KindImage | KindFile | KindError

  const TEXT: Text := [116, 101, 120, 116]
  const IMAGE: Text := [105, 109, 97, 103, 101]
  const NO_DATA: Text := [78, 111, 32, 100, 97, 116, 97, 32, 97, 118, 97, 105, 108, 97, 98, 108, 101]

  predicate HasFoldedPrefix(lib: Library, name: Text, prefix: Text) {
    |name| >= |prefix| && forall i :: 0 <= i < |prefix| ==> lib.lower(name[i]) == prefix[i]
  }

  function KindOf(lib: Library, name: Text, size: nat): Kind {
    if HasFoldedPrefix(lib, name, TEXT) then KindText
    else if HasFoldedPrefix(lib, name, IMAGE) then KindImage
    else if size == 0 then KindError
    else KindFile
  }

  /** What a complete payload is delivered as. */
  function Delivered(lib: Library, kind: Kind, name: Text, data: seq<byte>): Result<Received> {
    match kind
    case KindText => (match lib.inflate(data) case Some(t) => Ok(GotText(name, t)) case None => Err(BadInflate))
    case KindImage => Ok(GotImage(name, data))
    case KindFile => Ok(GotFile(name, data))
    case KindError => Ok(GotError(name))
  }

  function Deliver(lib: Library, name: Text, data: seq<byte>): Result<Received> {
    Delivered(lib, KindOf(lib, name, |data|), name, data)
  }

  /** The payload part of a transfer of the given kind, and what stays unread after it. */
  function ReceiveBody(lib: Library, u: seq<byte>, kind: Kind, name: Text, size: nat): (Result<Received>, seq<byte>) {
    if kind == KindError then (Ok(GotError(name)), u)
    else if Align16(size) > |u| then (Err(Eof), [])
    else (Delivered(lib, kind, name, u[..size]), u[Align16(size)..])
  }

  /** The transfer at the front of a plaintext stream, and what stays unread after it. */
  function Receive(lib: Library, u: seq<byte>): (Result<Received>, seq<byte>) {
    if |u| < HEADER_LEN then (Err(Eof), []) else
      var rest := u[HEADER_LEN..];
      match ParseSecondaryHeader(u[..HEADER_LEN])
      case Err(e) => (Err(e), rest)
      case Ok((size, name)) =>
        ReceiveBody(lib, rest, KindOf(lib, name, size), name, size)
  }

  method ReceiveMemory(sc: SecureConn, lib: Library, kind: Kind, name: Text, size: nat) returns (r: Result<Received>)
    requires sc.Valid() && (kind == KindText || kind == KindImage)
    modifies sc`decIV, sc`ended, sc.inbound`taken
    ensures sc.Valid()
    ensures (r, sc.Unread()) == ReceiveBody(lib, old(sc.Unread()), kind, name, size)
  {
    hide Align16, SecureConn.Valid, SecureConn.ValidOut, SecureConn.Unread, SecureConn.Incoming;
    var data := ReadExact(sc, size);
    if data.Err? { return Err(data.error); }
    if kind == KindText {
      r := match lib.inflate(data.value) case Some(t) => Ok(GotText(name, t)) case None => Err(BadInflate);
    } else {
      r := Ok(GotImage(name, data.value));
    }
  }

  method ReceiveFile(sc: SecureConn, lib: Library, name: Text, size: nat) returns (r: Result<Received>)
    requires sc.Valid()
    modifies sc`decIV, sc`ended, sc.inbound`taken
    ensures sc.Valid()
    ensures (r, sc.Unread()) == ReceiveBody(lib, old(sc.Unread()), KindFile, name, size)
  {
    hide Align16, SecureConn.Valid, SecureConn.ValidOut, SecureConn.Unread, SecureConn.Incoming;
    var w := new FileSink();
    var done, _ := ReadStream(sc, size, w);
    if done.Err? { return Err(done.error); }
    r := Ok(GotFile(name, w.data));
  }

  method ReceiveTransfer(sc: SecureConn, lib: Library) returns (r: Result<Received>)
    requires sc.Valid()
    modifies sc`decIV, sc`ended, sc.inbound`taken
    ensures sc.Valid()
    ensures (r, sc.Unread()) == Receive(lib, old(sc.Unread()))
  {
    hide ParseSecondaryHeader, KindOf, ReceiveBody, SecureConn.Valid, SecureConn.ValidOut, SecureConn.Unread, SecureConn.Incoming;
    var hdr := sc.ReadRaw(HEADER_LEN);
    if hdr.Err? { return Err(hdr.error); }
    var parsed := ParseSecondaryHeader(hdr.value);
    if parsed.Err? { return Err(parsed.error); }
    var (size, name) := parsed.value;
    match KindOf(lib, name, size) {
      case KindText => r := ReceiveMemory(sc, lib, KindText, name, size);
      case KindImage => r := ReceiveMemory(sc, lib, KindImage, name, size);
      case KindError =>
        NoBody(lib, sc.Unread(), name, size);
        r := Ok(GotError(name));
      case KindFile => r := ReceiveFile(sc, lib, name, size);
    }
  }

  lemma NoBody(lib: Library, u: seq<byte>, name: Text, size: nat)
    ensures ReceiveBody(lib, u, KindError, name, size) == (Ok(GotError(name)), u)
  {
  }

  /** Byte-exact and in sync: whatever follows a transfer on the stream is still there, in full, after receiving it. */
  lemma TransferRoundTrip(lib: Library, name: Text, data: seq<byte>, rest: seq<byte>)
    requires |data| <= MAX_TRANSFER_BYTES && HeaderFits(|data|, name)
    ensures Receive(lib, TransferPlain(name, data) + rest) == (Deliver(lib, TrimRight(name, {0}), data), rest)
  {
    hide ParseSecondaryHeader, KindOf, BuildSecondaryHeader, HeaderFits;
    var u, hdr := TransferPlain(name, data) + rest, BuildSecondaryHeader(|data|, name).value;
    assert u[..HEADER_LEN] == hdr && u[HEADER_LEN..] == Padded(data) + rest;
    HeaderRoundTrip(|data|, name);
    assert (Padded(data) + rest)[..|data|] == data && (Padded(data) + rest)[Align16(|data|)..] == rest;
    if data == [] {
      assert Padded(data) + rest == rest;
    }
    OnlyEmptyIsError(lib, TrimRight(name, {0}), |data|);
  }

  lemma OnlyEmptyIsError(lib: Library, name: Text, size: nat)
    ensures KindOf(lib, name, size) == KindError ==> size == 0
  {
  }

  /** The folded name starts with "text". */
  predicate NamedText(lib: Library, name: Text) {
    && |name| >= 4 && lib.lower(name[0]) == 116 && lib.lower(name[1]) == 101
    && lib.lower(name[2]) == 120 && lib.lower(name[3]) == 116
  }

  /** The folded name starts with "image". */
  predicate NamedImage(lib: Library, name: Text) {
    && |name| >= 5 && lib.lower(name[0]) == 105 && lib.lower(name[1]) == 109 && lib.lower(name[2]) == 97
    && lib.lower(name[3]) == 103 && lib.lower(name[4]) == 101
  }

  lemma PrefixesAreNames(lib: Library, name: Text)
    ensures HasFoldedPrefix(lib, name, TEXT) <==> NamedText(lib, name)
    ensures HasFoldedPrefix(lib, name, IMAGE) <==> NamedImage(lib, name)
  {
    assert TEXT[0] == 116 && TEXT[1] == 101 && TEXT[2] == 120 && TEXT[3] == 116;
    assert IMAGE[0] == 105 && IMAGE[1] == 109 && IMAGE[2] == 97 && IMAGE[3] == 103 && IMAGE[4] == 101;
  }

  /** A transfer whose name starts with neither "text" nor "image" arrives as a file when it has data and as an error
      report when it has none, and no other transfer arrives as either. */
  lemma EmptyFileIsError(lib: Library, name: Text, data: seq<byte>, rest: seq<byte>)
    requires |data| <= MAX_TRANSFER_BYTES && HeaderFits(|data|, name)
    ensures var r, shown := Receive(lib, TransferPlain(name, data) + rest).0, TrimRight(name, {0});
            && ((r.Ok? && r.value.GotError?) <==> !NamedText(lib, shown) && !NamedImage(lib, shown) && data == [])
            && ((r.Ok? && r.value.GotFile?) <==> !NamedText(lib, shown) && !NamedImage(lib, shown) && data != [])
            && (r.Ok? && r.value.GotError? ==> r.value.message == shown)
            && (r.Ok? && r.value.GotFile? ==> r.value == GotFile(shown, data))
  {
    hide HasFoldedPrefix, Receive, TransferPlain, HeaderFits;
    TransferRoundTrip(lib, name, data, rest);
    PrefixesAreNames(lib, TrimRight(name, {0}));
  }

  /** What becomes of every transfer sent: named "text..." it is inflated, or refused when it does not inflate; named
      "image..." its bytes arrive as they are; and nothing else arrives as either. */
  lemma KindsArrive(lib: Library, name: Text, data: seq<byte>, rest: seq<byte>)
    requires |data| <= MAX_TRANSFER_BYTES && HeaderFits(|data|, name)
    ensures var r, shown := Receive(lib, TransferPlain(name, data) + rest).0, TrimRight(name, {0});
            && ((r.Ok? && r.value.GotText?) <==> NamedText(lib, shown) && lib.inflate(data).Some?)
            && (r.Ok? && r.value.GotText? ==> lib.inflate(data) == Some(r.value.text) && r.value.name == shown)
            && (r == Err(BadInflate) <==> NamedText(lib, shown) && lib.inflate(data) == None)
            && ((r.Ok? && r.value.GotImage?) <==> NamedImage(lib, shown))
            && (r.Ok? && r.value.GotImage? ==> r.value == GotImage(shown, data))
  {
    hide HasFoldedPrefix, Receive, TransferPlain, HeaderFits;
    TransferRoundTrip(lib, name, data, rest);
    PrefixesAreNames(lib, TrimRight(name, {0}));
  }

  // The 69/79 header packets.

  datatype Header = Header(push: bool, name: Name, src: uint32, postAction: int32)

  function HeaderPacket(h: Header, id: int32): Packet {
    Packet(if h.push then PT_CLIPBOARD_PUSH else PT_CLIPBOARD, id, h.src, ID_ALL, PostActionBytes(h.postAction), h.name, true)
  }

  function ReadHeader(raw: seq<byte>, magic: uint32): Result<Header> {
    match Decode(raw, magic)
    case Err(e) => Err(e)
    case Ok(p) =>
      if p.typ != PT_CLIPBOARD_PUSH && p.typ != PT_CLIPBOARD then Err(UnexpectedType)
      else if p.name == [] then Err(EmptyName)
      else Ok(Header(p.typ == PT_CLIPBOARD_PUSH, p.name, p.src, GetPostAction(p.payload)))
  }

  lemma HeaderPacketRoundTrip(h: Header, id: int32, magic: uint32)
    ensures |Encoding(HeaderPacket(h, id), magic)| == 64
    ensures ReadHeader(Encoding(HeaderPacket(h, id), magic), magic) ==
            if WireName(h.name) == [] then Err(EmptyName) else Ok(h.(name := WireName(h.name)))
  {
    hide Encoding, Decode, WireName;
    DecodeEncode(HeaderPacket(h, id), magic, magic);
    PostActionRoundTrip(h.postAction);
  }

  method ReadHeaderPacket(sc: SecureConn, magic: uint32) returns (r: Result<Header>)
    requires sc.Valid()
    modifies sc`decIV, sc`ended, sc.inbound`taken
    ensures sc.Valid()
    ensures var u := old(sc.Unread());
            if |u| < 64 then r == Err(Eof) && sc.Unread() == []
            else r == ReadHeader(u[..64], magic) && sc.Unread() == u[64..]
  {
    hide ReadHeader, SecureConn.Valid, SecureConn.ValidOut, SecureConn.Unread, SecureConn.Incoming;
    var raw := sc.ReadRaw(64);
    r := if raw.Ok? then ReadHeader(raw.value, magic) else Err(raw.error);
  }

  // The holder.

  /** How a Serve call ends: its result, what it left unread, and what it wrote. */
  datatype Served = Served(result: Result<Option<Received>>, rest: seq<byte>, wrote: seq<byte>)

  function ServeOutcome(lib: Library, u: seq<byte>, magic: uint32, own: Header, id: int32,
                        provide: Option<(Text, seq<byte>)>, hasSink: bool): Served
  {
    if |u| < 64 then Served(Err(Eof), [], []) else
      match ReadHeader(u[..64], magic)
      case Err(e) => Served(Err(e), u[64..], [])
      case Ok(peer) =>
        var hello := Encoding(HeaderPacket(own, id), magic);
        if peer.push then
          var (r, rest) := Receive(lib, u[64..]);
          Served(if r.Err? then Err(r.error) else if !hasSink then Err(NoSink) else Ok(Some(r.value)), rest, hello)
        else
          var (name, data) := if provide.Some? then provide.value else (NO_DATA, []);
          if |data| > MAX_TRANSFER_BYTES then Served(Err(TooBig), u[64..], hello)
          else if !HeaderFits(|data|, name) then Served(Err(HeaderTooLong), u[64..], hello)
          else Served(Ok(None), u[64..], hello + TransferPlain(name, data))
  }

  method Serve(sc: SecureConn, lib: Library, magic: uint32, own: Header, id: int32,
               provide: Option<(Text, seq<byte>)>, hasSink: bool)
    returns (r: Result<Option<Received>>)
    requires sc.Valid() && own.push
    modifies sc, sc.inbound`taken, sc.outbound`bytes
    ensures sc.Valid()
    ensures var o := ServeOutcome(lib, old(sc.Unread()), magic, own, id, provide, hasSink);
            r == o.result && sc.Unread() == o.rest && sc.sent == old(sc.sent) + o.wrote
  {
    hide Encoding, ReadHeader, HeaderPacket, Receive, HeaderFits, TransferPlain,
         SecureConn.Valid, SecureConn.ValidOut, SecureConn.Unread, SecureConn.Incoming;
    var peer := ReadHeaderPacket(sc, magic);
    if peer.Err? { return Err(peer.error); }
    WritePacket(sc, HeaderPacket(own, id), magic);
    if peer.value.push {
      var got := ReceiveTransfer(sc, lib);
      return if got.Err? then Err(got.error) else if !hasSink then Err(NoSink) else Ok(Some(got.value));
    }
    var (name, data) := if provide.Some? then provide.value else (NO_DATA, []);
    var w := SendTransfer(sc, name, data);
    r := if w.Err? then Err(w.error) else Ok(None);
  }

  // The puller: its request, and what it makes of the answer.

  function PullOutcome(lib: Library, u: seq<byte>, magic: uint32): (Result<Received>, seq<byte>) {
    if |u| < 64 then (Err(Eof), []) else
      match ReadHeader(u[..64], magic)
      case Err(e) => (Err(e), u[64..])
      case Ok(peer) => if !peer.push then (Err(NotPush), u[64..]) else Receive(lib, u[64..])
  }

  method PullRequest(sc: SecureConn, magic: uint32, own: Header, id: int32)
    requires sc.Valid() && !own.push
    modifies sc`encIV, sc`sent, sc.outbound`bytes
    ensures sc.Valid() && sc.Unread() == old(sc.Unread())
    ensures sc.sent == old(sc.sent) + Encoding(HeaderPacket(own, id), magic)
  {
    WritePacket(sc, HeaderPacket(own, id), magic);
  }

  method PullAnswer(sc: SecureConn, lib: Library, magic: uint32) returns (r: Result<Received>)
    requires sc.Valid()
    modifies sc`decIV, sc`ended, sc.inbound`taken
    ensures sc.Valid()
    ensures (r, sc.Unread()) == PullOutcome(lib, old(sc.Unread()), magic)
  {
    hide Receive, ReadHeader, SecureConn.Valid, SecureConn.ValidOut, SecureConn.Unread, SecureConn.Incoming;
    var peer := ReadHeaderPacket(sc, magic);
    if peer.Err? { return Err(peer.error); }
    if !peer.value.push { return Err(NotPush); }
    r := ReceiveTransfer(sc, lib);
  }

  /** What the holder offers, or its error report, as the puller will see it. */
  function Offered(lib: Library, provide: Option<(Text, seq<byte>)>): Result<Received> {
    match provide
    case Some((name, data)) => Deliver(lib, TrimRight(name, {0}), data)
    case None => Deliver(lib, NO_DATA, [])
  }

  predicate Sendable(provide: Option<(Text, seq<byte>)>) {
    provide.Some? ==> |provide.value.1| <= MAX_TRANSFER_BYTES && HeaderFits(|provide.value.1|, provide.value.0)
  }

  /** A pull against a serve delivers exactly what the holder offered, and both streams are left exactly at whatever
      came after the session. */
  lemma PullMeetsServe(lib: Library, magic: uint32, puller: Header, idP: int32, holder: Header, idH: int32,
                       provide: Option<(Text, seq<byte>)>, hasSink: bool, after: seq<byte>, later: seq<byte>)
    requires !puller.push && holder.push && WireName(puller.name) != [] && WireName(holder.name) != [] && Sendable(provide)
    ensures var s := ServeOutcome(lib, Encoding(HeaderPacket(puller, idP), magic) + after, magic, holder, idH, provide, hasSink);
            && s.result == Ok(None) && s.rest == after
            && PullOutcome(lib, s.wrote + later, magic) == (Offered(lib, provide), later)
  {
    hide Encoding, ReadHeader, HeaderPacket, Receive, HeaderFits, TransferPlain, Deliver, TrimRight, WireName;
    var ask, hello := Encoding(HeaderPacket(puller, idP), magic), Encoding(HeaderPacket(holder, idH), magic);
    var (name, data) := if provide.Some? then provide.value else (NO_DATA, []);
    HeaderPacketRoundTrip(puller, idP, magic);
    HeaderPacketRoundTrip(holder, idH, magic);
    NoDataFits();
    assert (ask + after)[..64] == ask && (ask + after)[64..] == after;
    var body := TransferPlain(name, data) + later;
    assert hello + TransferPlain(name, data) + later == hello + body;
    assert (hello + body)[..64] == hello && (hello + body)[64..] == body;
    TransferRoundTrip(lib, name, data, later);
  }

  lemma NoDataFits()
    ensures HeaderFits(0, NO_DATA) && TrimRight(NO_DATA, {0}) == NO_DATA
  {
    hide EncodeUnits;
    assert |HeaderText(0, NO_DATA)| == 2 + |NO_DATA|;
    UnitsOfBmp(HeaderText(0, NO_DATA));
    TrimRightUnique(NO_DATA, NO_DATA, {0});
  }

  lemma {:induction false} UnitsOfBmp(s: Text)
    requires forall i :: 0 <= i < |s| ==> s[i] < 0x1_0000
    ensures |EncodeUnits(s)| == |s|
  {
    if s != [] { UnitsOfBmp(s[1..]); }
  }

  /** A push against a serve: the holder's sink gets exactly what was pushed. */
  lemma PushMeetsServe(lib: Library, magic: uint32, pusher: Header, idP: int32, holder: Header, idH: int32,
                       provide: Option<(Text, seq<byte>)>, name: Text, data: seq<byte>, after: seq<byte>)
    requires pusher.push && WireName(pusher.name) != [] && |data| <= MAX_TRANSFER_BYTES && HeaderFits(|data|, name)
    ensures var s := ServeOutcome(lib, Encoding(HeaderPacket(pusher, idP), magic) + TransferPlain(name, data) + after,
                                  magic, holder, idH, provide, true);
            && s.rest == after
            && s.result == match Deliver(lib, TrimRight(name, {0}), data) case Ok(g) => Ok(Some(g)) case Err(e) => Err(e)
  {
    hide Encoding, ReadHeader, HeaderPacket, Receive, HeaderFits, TransferPlain, Deliver, TrimRight, WireName;
    var ask, body := Encoding(HeaderPacket(pusher, idP), magic), TransferPlain(name, data) + after;
    HeaderPacketRoundTrip(pusher, idP, magic);
    assert ask + TransferPlain(name, data) + after == ask + body;
    assert (ask + body)[..64] == ask && (ask + body)[64..] == body;
    TransferRoundTrip(lib, name, data, after);
  }

  /** A holder that does not answer with a push is refused, and no more of it is read. */
  lemma PullNeedsPush(lib: Library, magic: uint32, holder: Header, id: int32, later: seq<byte>)
    requires !holder.push && WireName(holder.name) != []
    ensures PullOutcome(lib, Encoding(HeaderPacket(holder, id), magic) + later, magic) == (Err(NotPush), later)
  {
    hide Encoding, ReadHeader, HeaderPacket, Receive, WireName;
    var hello := Encoding(HeaderPacket(holder, id), magic);
    HeaderPacketRoundTrip(holder, id, magic);
    assert (hello + later)[..64] == hello && (hello + later)[64..] == later;
  }

  /** What a holder does not send: an offer that is too big or whose name does not fit, after its own header; and a push
      it has no sink for is received and then refused. */
  lemma ServeRefuses(lib: Library, magic: uint32, peer: Header, idP: int32, holder: Header, idH: int32, name: Text,
                     data: seq<byte>)
    requires WireName(peer.name) != []
    ensures var hello := Encoding(HeaderPacket(holder, idH), magic);
            var asked := Encoding(HeaderPacket(peer, idP), magic);
            && (!peer.push && |data| > 104857600 ==>
                  ServeOutcome(lib, asked, magic, holder, idH, Some((name, data)), true) == Served(Err(TooBig), [], hello))
            && (!peer.push && |data| <= 104857600 && !HeaderFits(|data|, name) ==>
                  ServeOutcome(lib, asked, magic, holder, idH, Some((name, data)), true) == Served(Err(HeaderTooLong), [], hello))
            && (peer.push && |data| <= 104857600 && HeaderFits(|data|, name) && Deliver(lib, TrimRight(name, {0}), data).Ok? ==>
                  ServeOutcome(lib, asked + TransferPlain(name, data), magic, holder, idH, None, false) ==
                  Served(Err(NoSink), [], hello))
  {
    hide Encoding, ReadHeader, HeaderPacket, Receive, HeaderFits, TransferPlain, Deliver, TrimRight, WireName;
    var asked := Encoding(HeaderPacket(peer, idP), magic);
    HeaderPacketRoundTrip(peer, idP, magic);
    assert asked[..64] == asked && asked[64..] == [];
    if peer.push && |data| <= 104857600 && HeaderFits(|data|, name) {
      var body := TransferPlain(name, data);
      assert (asked + body)[..64] == asked && (asked + body)[64..] == body;
      TransferRoundTrip(lib, name, data, []);
      assert body + [] == body;
    }
  }

  /** A transfer cut short anywhere delivers nothing. */
  lemma CutShort(lib: Library, name: Text, data: seq<byte>, u: seq<byte>)
    requires |data| <= MAX_TRANSFER_BYTES && HeaderFits(|data|, name)
    requires |u| < |TransferPlain(name, data)| && u == TransferPlain(name, data)[..|u|]
    ensures Receive(lib, u) == (Err(Eof), [])
  {
    hide ParseSecondaryHeader, KindOf, BuildSecondaryHeader, HeaderFits, TrimRight, Delivered, Align16;
    if |u| >= HEADER_LEN {
      HeaderRoundTrip(|data|, name);
      assert u[..HEADER_LEN] == BuildSecondaryHeader(|data|, name).value;
      OnlyEmptyIsError(lib, TrimRight(name, {0}), |data|);
      EmptyAlign();
    }
  }

  lemma EmptyAlign()
    ensures Align16(0) == 0
  {
  }

  /** Serve, with what it means for the peer at the other end of the wires. */
  method ServeBeside(p: SecureConn, s: SecureConn, lib: Library, magic: uint32, holder: Header, idH: int32,
                     provide: Option<(Text, seq<byte>)>, hasSink: bool)
    returns (r: Result<Option<Received>>)
    requires p.Valid() && s.Valid() && p != s && Feeds(s, p) && p.outbound == s.inbound
    requires !p.ended && p.Unread() == [] && holder.push
    modifies s, s.inbound`taken, s.outbound`bytes
    ensures p.Valid() && s.Valid()
    ensures Served(r, s.Unread(), p.Unread()) == ServeOutcome(lib, old(s.Unread()), magic, holder, idH, provide, hasSink)
  {
    ghost var before := s.sent;
    ReaderSeesWriter(s, p);
    r := Serve(s, lib, magic, holder, idH, provide, hasSink);
    ReaderSurvives(s, p, before);
    ReaderSeesWriter(s, p);
  }

  /** PullRequest likewise. */
  method RequestBeside(p: SecureConn, s: SecureConn, magic: uint32, puller: Header, idP: int32)
    requires p.Valid() && s.Valid() && p != s && Feeds(p, s) && s.outbound == p.inbound
    requires !s.ended && s.Unread() == [] && !puller.push
    modifies p`encIV, p`sent, p.outbound`bytes
    ensures p.Valid() && s.Valid()
    ensures s.Unread() == Encoding(HeaderPacket(puller, idP), magic) && p.Unread() == old(p.Unread())
  {
    ghost var before := p.sent;
    ReaderSeesWriter(p, s);
    PullRequest(p, magic, puller, idP);
    ReaderSurvives(p, s, before);
    ReaderSeesWriter(p, s);
  }

  /** The two programs run against each other over two encrypted wires with nothing else in flight. */
  method PullAgainstServe(p: SecureConn, s: SecureConn, lib: Library, magic: uint32, puller: Header, idP: int32,
                          holder: Header, idH: int32, provide: Option<(Text, seq<byte>)>)
    returns (got: Result<Received>, served: Result<Option<Received>>)
    requires p.Valid() && s.Valid() && p != s && Feeds(p, s) && Feeds(s, p) && !p.ended && !s.ended
    requires p.Unread() == [] && s.Unread() == []
    requires !puller.push && holder.push && WireName(puller.name) != [] && WireName(holder.name) != [] && Sendable(provide)
    modifies p, s, p.inbound, p.outbound
    ensures p.Valid() && s.Valid() && p.Unread() == [] && s.Unread() == []
    ensures got == Offered(lib, provide) && served == Ok(None)
  {
    hide Encoding, ServeOutcome, PullOutcome, HeaderPacket, Offered, Sendable, WireName;
    PullMeetsServe(lib, magic, puller, idP, holder, idH, provide, false, [], []);
    RequestBeside(p, s, magic, puller, idP);
    assert s.Unread() + [] == s.Unread();
    served := ServeBeside(p, s, lib, magic, holder, idH, provide, false);
    assert p.Unread() + [] == p.Unread();
    got := PullAnswer(p, lib, magic);
  }
}
