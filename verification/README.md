# A verified model of the MWB Linux client

MWB lets several computers share one keyboard, mouse and clipboard. Its Go code is a stack of protocols: a
CBC-chained encrypted stream, 32/64 byte packets, a mutual ten-round handshake, packet fan-out over several
connections with one duplicate window, a bulk clipboard transfer and an in-band one, replication of a four-slot
machine layout, and a state machine that hands the input focus to the neighbour when the pointer meets a screen edge.

This project models that stack in Dafny and proves that the layers agree: what one side writes the other reads, in
every segmentation, interleaving, run and layout. Where the code updates state, the model is a class or a method over
arrays, proved equal to a function of the old state; the promises are then lemmas about those functions, over whole
sequences, streams and runs.

| file | module | what it is |
|---|---|---|
| Bytes.dfy, Utf16.dfy | Bytes, Utf16 | fixed-width integers, little endian, trimming; UTF-16LE and decimal text |
| Crypto.dfy, Stream.dfy | Crypto, Stream | the CBC loops; the connection whose cipher state chains for life |
| Packet.dfy, Framing.dfy | Packets, Framing | the packet codec and payload unions; delimiting packets on a stream |
| Handshake.dfy, HandshakeRun.dfy, HandshakeWire.dfy | Handshake, HandshakeRun, HandshakeWire | one peer against anything; two peers in every interleaving; the program against an honest peer's bytes |
| Dedup.dfy, FanOut.dfy | Dedups, FanOut | the 50-entry ring; one id over many connections |
| Legs.dfy, LegRuns.dfy | Legs, LegRuns | several connections behind one ring, over whole runs; runs that show what each condition is for |
| Transfer.dfy, Session.dfy, FastPath.dfy | Transfer, Session, FastPath | the bulk transfer, its two-party session, the 48 byte chunks |
| Geometry.dfy, Matrix.dfy | Geometry, Matrices | the 0..65535 grid, edges and entry points; the layout and its neighbours |
| Switcher.dfy, Host.dfy, HostEdge.dfy, HostRun.dfy | Switchers, Hosts, HostEdge, HostRun | the one-slot handoff, the edge-switch machine, where each edge leads, its runs |
| Pool.dfy, Layout.dfy, Guess.dfy, Server.dfy | Pools, Layouts, Guesses, Servers | the name pool, the shared layout, what of it is guessed when sent, the packet handler and read loop |
| ServeRun.dfy, WireForms.dfy | ServeRuns, WireForms | what of several legs' packets reaches the handler; the wire form of every packet built and the answers by type |
| Delivery.dfy | Delivery | one input event or switch from the capturing machine to the one that has the focus |

## How the outside world appears

- AES under a key is any pair of inverse functions on 16 byte blocks; a key schedule is any function from keys to such
  pairs. Challenges, salts and starting ivs are arbitrary.
- A TCP direction is a growing byte sequence. A read that asks for more than has been written is the end of the stream
  for that reader, as a closed connection is for the code; in `HandshakeRun`, where waiting matters, a read waits
  instead, and a write waits for buffer space.
- `strings.TrimSpace` and the folding behind `strings.EqualFold`, `unicode.ToLower` and the inflater are parameters. Only
  where stated is anything assumed of them (that trimming the empty string gives it back; that nothing but the empty
  string folds like it).
- A region under a lock is one step. The clock is an argument. The screen backend is a list of the calls made on it.

## Results where the code and its comments differ, or a promise holds only conditionally

- A packet that carries a name on a type whose frames are 32 bytes is encoded as 64 and read as 32, after which the
  reader is out of step. `Framing.StreamRoundTrip` has the exact condition.
- The handshake writes ten packets before its first read, so with buffers for fewer than ten packets both sides can wait
  for ever. `HandshakeRun.DeadlockFreeIffTenBuffered` is exact.
- A copy that arrives after 50 newer acceptances is accepted again (`LegRuns.LateCopyRepeats`). With broadcasts alone
  that is the only way to go wrong: if no copy is that late, each passes once and in order, for any number of packets and
  across any number of id wraps; that a new broadcast is never taken for an old one is proved, not assumed
  (`Legs.BroadcastsSurvive`). With single-leg packets in between, it is assumed that the window never spans 2^32 numbers
  (`Legs.ExactlyOnceInOrder`); without that a packet can be lost (`LegRuns.WrapLosesPacket`).
- Sending order is kept only if no leg joins between two broadcasts (`LegRuns.JoinerOvertakes`) and no two broadcasts
  run side by side, since internal/net/server_send.go:16-47 draws the id and writes outside the lock
  (`LegRuns.SideBySideCross`). Exactly-once needs neither.
- The bulk header returns the name without trailing NULs, so a name ending in one is not preserved
  (`Transfer.NameRoundTrip`). An empty transfer that is neither text nor image arrives as an error report
  (`Session.EmptyFileIsError`).
- The comments at internal/clipboard/clipboard.go:151-153 and 171-174 speak of a zero-padded last chunk; a short last
  chunk is in fact padded with spaces in the name area, and reading the buffer back drops real trailing zeros
  (`FastPath.ContentsExact`).
- `Denormalize` is documented at internal/util/util.go:48 as a map into the pixel range; its last grid point lands one
  pixel past the range (`Geometry.DenormalizeRange`).
- The landing point of a switch clears the peer's trigger strips only if the inset spans a pixel of the peer's screen
  (`Geometry.AntiBounce`); from a 3840 to a 1280 pixel wide screen it does not (`Geometry.BouncesIntoSmaller`).
- A host whose own slot is renumbered while it has the focus takes itself to be away and forwards input to its former
  slot, though no machine was told it has the focus (`HostRun.RenumberedHostStrays`); `HostRun.StrayForward` says
  exactly when. While the slot does not change, the focus is always where the last switch told
  (`HostRun.FocusFollowsTold`).
- The comment at internal/host/host.go:31 says modifiers are released on every switch to avoid stuck ones. The releases
  are addressed to the old focus, which while our slot does not change is always ourselves, so no other machine injects
  them (`Delivery.ReleasesReachNobody`).
- The comments at internal/net/server.go:36-38 and 209-210 say a guessed layout is never broadcast. It is, once any
  matrix packet has come after the guess: a packet for a vacant slot with no name in it releases the guess untouched
  (`Guesses.EmptyPacketReleasesGuess`), and the first packet of an ordinary burst releases a layout with a guessed second
  slot (`Guesses.HalfBurstReleasesGuess`). `Guesses.GuessSent` says exactly when; after a configuration, or packets for
  the first two slots, no guess is left (`Guesses.NoGuessLeft`).
- A switch packet has no destination gate (internal/net/dispatch.go:136-141), so every machine that gets it takes its
  focus back, a third one that was away included (`Delivery.SwitchReclaimsEveryone`, `Delivery.BystanderLosesFocus`).
- The comment at internal/host/host.go:330-336 says the tracker is re-anchored on focus return through `SetPosition`; a
  host whose backend offers it leaves its own tracker where it was (internal/host/host.go:359-362), as
  `Hosts.Host.OnNextMachine` states. `HostRun.Hysteresis` holds either way.

## Model

| member | source | states |
|---|---|---|
| Crypto.DecryptUndoesEncrypt | internal/crypto/crypto.go:78-120 | CBC decryption inverts CBC encryption for every aligned input, iv and block bijection |
| Crypto.EncryptUndoesDecrypt | internal/crypto/crypto.go:78-120 | and the other way round |
| Crypto.EncryptSplits | internal/crypto/stream.go:97-107 | encrypting a concatenation is encrypting the parts, carrying the last ciphertext block as the next iv |
| Crypto.DecryptSplits | internal/crypto/stream.go:110-122 | the same for decrypting |
| Crypto.ChainSplits | internal/crypto/stream.go:97-122 | the chaining value after a concatenation is the one reached in two stages |
| Bytes.XorIsBitwise | internal/crypto/crypto.go:91-93 | the exclusive or of two bytes has exactly the bits that one has and the other has not |
| Bytes.BitIsDivision | internal/crypto/crypto.go:91-93 | bit k is the last binary digit of x / 2^k |
| Crypto.EncryptBlocks | internal/crypto/crypto.go:78-98 | block by block: each ciphertext block enciphers the bitwise exclusive or of its plaintext block and the ciphertext block before it, the iv for the first |
| Crypto.DecryptBlocks | internal/crypto/crypto.go:100-120 | block by block: each plaintext block is the bitwise exclusive or of its deciphered block and the ciphertext block before it |
| Crypto.IvMatters | internal/crypto/crypto.go:78-98 | one plaintext under two ivs has two different first ciphertext blocks |
| Crypto.IvIsCopied | internal/crypto/crypto.go:87-88 | the first block is chained with up to 16 bytes of the iv, zeros after a short one |
| Crypto.CbcEncrypt | internal/crypto/crypto.go:78-98 | the in-place block loop yields the chained encryption of its input; it fails exactly on unaligned input or a key that is not 16, 24 or 32 bytes |
| Crypto.CbcDecrypt | internal/crypto/crypto.go:100-120 | the same for the decrypting loop |
| Stream.SecureConn.WriteRaw | internal/crypto/stream.go:97-107 | an aligned write appends to the plaintext history, whose single chained encryption the wire always is; an unaligned one changes nothing |
| Stream.SecureConn.ReadRaw | internal/crypto/stream.go:110-122 | an aligned read returns exactly the next n plaintext bytes and leaves exactly the rest, however the stream was cut before |
| Stream.ReadAdvances | internal/crypto/stream.go:110-122 | decrypting a middle piece with the carried iv gives the middle piece of the whole decryption |
| Stream.ReaderSeesWriter | internal/crypto/stream.go:67-122 | whatever cuts writer and reader made, the reader still has ahead exactly what was sent and not yet read |
| Stream.ReaderSurvives | internal/crypto/stream.go:97-122 | a consistent reader stays consistent while its writer goes on writing |
| Packets.Checksum | internal/protocol/packet.go:85-91 | the low byte of the true sum, although the uint32 accumulator may wrap |
| Packets.Encode | internal/protocol/packet.go:33-53 | the buffer filled field by field, checksum last, is the packet's 32 or 64 byte encoding |
| Packets.UnpadPad | internal/protocol/packet.go:94-113 | padding then unpadding cuts a name to 32 bytes and strips trailing spaces and NULs, nothing else |
| Packets.DecodeEncode | internal/protocol/packet.go:33-82 | decoding inverts encoding up to that name normalisation; a reader with another magic accepts exactly when the top 16 bits agree |
| Packets.CorruptionDetected | internal/protocol/packet.go:58-91 | changing any single one of bytes 1 to 31 of an accepted packet gets it rejected |
| Packets.SetKey | internal/protocol/packet.go:124-128 | the payload buffer afterwards, for the round trip below |
| Packets.KeyRoundTrip | internal/protocol/packet.go:124-136 | reading a key payload returns the event written, signs included |
| Packets.SetMouse | internal/protocol/packet.go:146-151 | the payload buffer afterwards, for the round trip below |
| Packets.MouseRoundTrip | internal/protocol/packet.go:146-160 | reading a mouse payload returns the event written |
| Packets.SetPostAction | internal/protocol/packet.go:191-196 | the payload buffer afterwards, every other byte cleared |
| Packets.PostActionRoundTrip | internal/protocol/packet.go:191-200 | reading a post action returns the one written |
| Packets.NextMachineRoundTrip | internal/protocol/packet.go:180-188 | the destination always survives the mouse union; the entry point exactly when both coordinates fit an int32 |
| Packets.RelativeDeltaRoundTrip | internal/protocol/packet.go:163-176 | the receiver recovers a marked delta exactly when delta plus marker fits an int32, and then sees it as relative |
| Framing.ReadAuto | internal/net/dispatch.go:63-76 | returns the next frame and leaves the stream right after it; on a partial frame the stream is over |
| Framing.FrameOf | internal/net/dispatch.go:63-76 | the frame read from a packet's encoding is all of it exactly when a name occurs only on a 64 byte type; else its first half, which decodes to a nameless packet |
| Framing.DecodePrefix | internal/net/dispatch.go:81-97 | framable packets followed by anything decode to themselves and then to the decoding of the rest |
| Framing.StreamRoundTrip | internal/net/dispatch.go:63-97 | a packet sequence comes back in order, complete and in sync if and only if every packet in it is framable |
| Framing.LosesSync | internal/net/dispatch.go:63-76 | one unframable packet anywhere and the sequence read is not the one sent |
| Dedups.Dedup.Seen | internal/protocol/dedup.go:18-36 | on the circular array: reports a duplicate exactly for one of the last 50 accepted ids, and accepts exactly the others |
| Dedups.Dedup.Insert | internal/protocol/dedup.go:28-35 | overwriting one cell of the ring appends the id to the accepted log and drops the oldest of a full window |
| Dedups.Dedup.Cells | internal/protocol/dedup.go:18-36 | after any calls the first `seen` cells are pairwise distinct and exactly the last min(50, n) accepted ids |
| Dedups.Dedup.Reset | internal/protocol/dedup.go:39-45 | forgets every accepted id |
| FanOut.Sender.Next | internal/net/ids.go:25 | ids are consecutive modulo 2^32 for ever, across wrap-around of the int32 and of the int64 counter |
| FanOut.IdsCollide | internal/net/ids.go:25 | two packets of one sender share an id exactly when their numbers agree modulo 2^32 |
| FanOut.Broadcaster.Broadcast | internal/net/server_send.go:16-47 | every open message leg gets the same bytes under one fresh id, no other leg anything; fails exactly when nothing was sent |
| Legs.WindowDecides | internal/protocol/dedup.go:18-36 | on any mixture of packets from one sender the shared window refuses one exactly when its number agrees modulo 2^32 with one of the last 50 accepted |
| Legs.StepOnce | internal/net/dispatch.go:81-102 | while every packet delivered so far was accepted exactly once, one more turn keeps it so if and only if the arrival is timely |
| Legs.ExactlyOnce | internal/net/dispatch.go:81-102 | in every run of broadcasts, also side by side, and single-leg packets, over legs that join and fail: at every moment each delivered packet has been accepted exactly once, if and only if each copy arrives while its id is among the last 50 accepted and each new packet while its id is not |
| Legs.SpannedTimely | internal/protocol/dedup.go:18-36 | at any count, while the window spans less than 2^32 numbers: that condition is just that a late copy has fewer than 50 acceptances after its own |
| Legs.ExactlyOnceUnlessLate | internal/net/dispatch.go:81-102 | so in such runs exactly-once holds at every moment if and only if no copy is too late |
| Legs.NewBroadcastTimely | internal/net/server_send.go:16-47 | a new broadcast is never taken for an old one, whatever its number: the window then holds the 50 just before it |
| Legs.CastsAloneExact | internal/net/server_send.go:16-47 | with broadcasts alone, at any count, the packets let through are 0, 1, 2, ... if and only if each copy arrives while its id is among the last 50 accepted |
| Legs.BroadcastsSurvive | internal/net/server_send.go:16-47 | from one hypothesis, that no copy arrives after 50 newer acceptances: broadcasts pass exactly once and in order, for any number of them across int32 wrap-around, and all have passed once a leg that never failed has drained |
| Legs.ExactlyOnceInOrder | internal/net/server_send.go:16-47 | with single-leg packets in between, no copy too late, a window that spans less than 2^32 numbers, all legs there from the start and broadcasts one at a time: broadcasts pass once, in send order and without a gap; none is missing once a leg that never failed has drained |
| LegRuns.LateCopyRepeats | internal/protocol/dedup.go:18-36 | a run in which a copy arrives after 50 newer acceptances and passes a second time |
| LegRuns.JoinerOvertakes | internal/net/server.go:206-208 | a run in which a leg joins between two broadcasts and the second passes first, every arrival being timely |
| LegRuns.SideBySideCross | internal/net/server_send.go:16-47 | a run in which two broadcasts are numbered in one order and written in the other, and so accepted in the other |
| LegRuns.WrapLosesPacket | internal/protocol/dedup.go:18-36 | a run of 2^32 numbers between two packets of a leg, the second of which is refused and lost |
| Handshake.AckStep | internal/net/handshake.go:113-125 | one ack is accepted exactly when the challenge it answers still has an unacked copy, and marks one such copy |
| Handshake.ChallengeAsDrawn | internal/protocol/matrix.go:151-159 | a challenge carries the random block as drawn, with our slot and name, for everyone |
| Handshake.AckTurnsEveryBit | internal/protocol/matrix.go:161-169 | every byte of an ack and of the challenge it answers add up to 255; it goes back to the sender, under our name and no slot |
| Handshake.VerifiedExactly | internal/protocol/matrix.go:172-182 | an ack is accepted for a challenge if and only if all byte sums are 255; an echo of the challenge is never accepted for it |
| Handshake.EachChallengeAnswered | internal/net/handshake.go:92-137 | on success each ack read was accepted for a challenge of its own whose every bit it turns, and every challenge has such an ack |
| Handshake.AckMatching | internal/net/handshake.go:98-128 | in any order, even with repeated challenges: all packets are accepted if and only if they are handshake packets whose acks answer a sub-multiset of the challenges |
| Handshake.SuccessAnswersEveryChallenge | internal/net/handshake.go:92-137 | against an arbitrary peer, success means the complemented ack payloads read are the challenges as a multiset |
| Handshake.MatchAck | internal/net/handshake.go:115-123 | the search loop finds the first unacked challenge the ack answers |
| Handshake.SendChallenges | internal/net/handshake.go:73-88 | the challenges go out first, in order, under consecutive ids |
| Handshake.ClientHandshake | internal/net/handshake.go:66-143 | against any input stream: the packets accepted, where and why it stops, the stream position it leaves, the name it returns and every byte it wrote (its challenges, then one ack per challenge read) |
| HandshakeRun.MoveKeepsInv | internal/net/handshake.go:66-137 | every step of either peer, application packets of a finished one included, keeps the invariant |
| HandshakeRun.HandshakeIsSafe | internal/net/handshake.go:66-137 | in no interleaving does an honest pair meet an error; a side returns having read exactly 20 packets, answered all ten challenges, with the peer's name |
| HandshakeRun.NeverStuck | internal/net/handshake.go:73-135 | with buffers for ten packets, every unfinished good state has an enabled handshake step |
| HandshakeRun.DeadlockFreeIffTenBuffered | internal/net/handshake.go:73-135 | no reachable unfinished state is stuck if and only if each direction buffers at least ten packets |
| HandshakeRun.EveryRunCompletes | internal/net/handshake.go:66-137 | no run exceeds 80 + 2 * cap steps, and a run that can go no further has returned on both sides |
| HandshakeWire.HonestProgress | internal/net/handshake.go:92-136 | the reader accepts an honest peer's twenty packets one by one, the challenges acked in order even when they repeat |
| HandshakeWire.FramesLieInLine | internal/net/handshake.go:99-106 | the bytes of 64 byte packets are read back frame by frame, with what follows left over |
| HandshakeWire.MeetPeer | internal/net/handshake.go:66-143 | on the bytes an honest peer sends, and anything after them, the handshake returns that peer's name, leaves the rest unread and sends exactly what an honest peer of the other sends |
| Utf16.EncodeText | internal/clipboard/clipboard.go:48-55 | the byte loop writes the UTF-16LE form of its runes |
| Utf16.DecodeText | internal/clipboard/clipboard.go:58-67 | the byte loop reads UTF-16LE, dropping an odd last byte, lone surrogates becoming U+FFFD |
| Utf16.DecodeEncoded | internal/clipboard/clipboard.go:48-67 | every text of Unicode scalar values, surrogate pairs included, decodes to itself whatever units follow |
| Utf16.SurrogateRules | internal/clipboard/clipboard.go:58-67 | a high surrogate before a low one is their rune, any other surrogate reads as U+FFFD and takes one unit |
| Utf16.PaddedTextRoundTrip | internal/clipboard/clipboard.go:48-67 | zero padding after an encoded text reads as NULs after the text |
| Utf16.DecimalRoundTrip | internal/clipboard/transfer.go:116-146 | every int64 printed in decimal is parsed back |
| Utf16.ParsesSigned | internal/clipboard/transfer.go:141-144 | digits after an optional sign are read with that sign if the value fits 64 bits, and refused otherwise |
| Transfer.BuildSecondaryHeader | internal/clipboard/transfer.go:116-124 | 1024 bytes, or an error exactly when the text does not fit |
| Transfer.HeaderRoundTrip | internal/clipboard/transfer.go:116-146 | a built header parses to its size and its name without trailing NULs, for every name that fits; a size outside 0..100 MB is refused |
| Transfer.NameRoundTrip | internal/clipboard/transfer.go:116-146 | size and name come back exactly if and only if the name does not end in NUL; stars in the name are no obstacle |
| Transfer.SendTransfer | internal/clipboard/transfer.go:167-198 | the 1 MB strides with a padded tail put on the stream one header and the payload padded to whole blocks, or nothing at all on error |
| Transfer.ReadPiece | internal/clipboard/transfer.go:303-325 | each aligned or padded-tail read returns the next payload bytes and keeps the reader aligned with the sender |
| Transfer.ReadExact | internal/clipboard/transfer.go:300-327 | returns exactly the next n bytes and consumes exactly 16 * ceil(n/16); fails exactly when those are not all there |
| Transfer.ReadStream | internal/clipboard/transfer.go:429-460 | the same into a file; on failure the file holds a prefix of the payload |
| Session.ReceiveMemory | internal/clipboard/transfer.go:231-252 | a text or image body is read in full, byte-exact, and the stream is left after its last block; a short stream delivers nothing |
| Session.ReceiveFile | internal/clipboard/transfer.go:255-295 | the same for a file body streamed into its sink |
| Session.ReceiveTransfer | internal/clipboard/transfer.go:203-252 | dispatches on header name and size and leaves the stream where the specification says, on every error path too |
| Session.TransferRoundTrip | internal/clipboard/transfer.go:167-327 | receiving what was sent delivers exactly the payload, and whatever follows on the stream is still there in full |
| Session.EmptyFileIsError | internal/clipboard/transfer.go:215-228 | a transfer arrives as an error report if and only if its name has neither prefix and it is empty, and as a file if and only if its name has neither prefix and it is not |
| Session.KindsArrive | internal/clipboard/transfer.go:215-252 | a transfer arrives as text if and only if its folded name starts with the letters t, e, x, t and its payload inflates, with the inflated text; as an inflate error if and only if it has that name and does not inflate; as an image, bytes untouched, if and only if it starts with i, m, a, g, e |
| Session.CutShort | internal/clipboard/transfer.go:203-327 | a transfer cut short anywhere delivers nothing |
| Session.HeaderPacketRoundTrip | internal/clipboard/transfer.go:72-113 | a 69/79 header packet reads back with direction, source, post action and normalised name; refused exactly when that name is empty |
| Session.Serve | internal/clipboard/transfer.go:333-366 | result, bytes written and stream position of the holder, for every input, error paths included |
| Session.PullRequest | internal/clipboard/transfer.go:376-379 | the puller writes exactly its header packet |
| Session.PullAnswer | internal/clipboard/transfer.go:380-388 | result and stream position of the puller for every answer |
| Session.PullMeetsServe | internal/clipboard/transfer.go:333-388 | a pull against a serve delivers exactly what the holder offered (or its error report), both streams left at whatever came after the session |
| Session.PushMeetsServe | internal/clipboard/transfer.go:333-366 | a push against a serve hands the sink exactly what was pushed |
| Session.PullNeedsPush | internal/clipboard/transfer.go:380-386 | a holder that does not answer with a push is refused and no more of it is read |
| Session.ServeRefuses | internal/clipboard/transfer.go:333-366 | an offer too big or with too long a name ends after the holder's header; a push without a sink is received and then refused |
| Session.PullAgainstServe | internal/clipboard/transfer.go:333-388 | the two programs over two encrypted wires: the puller gets the offer, both succeed, nothing is left unread |
| FastPath.EncodeFastPath | internal/clipboard/clipboard.go:86-107 | the chunking loop produces the recursive chunking of its data, ids wrapping as int32 |
| FastPath.ChunkedShape | internal/clipboard/clipboard.go:86-107 | ceil(n/48) chunks and one terminator, under consecutive ids |
| FastPath.EncodeChunkPacket | internal/clipboard/clipboard.go:135-156 | copying the raw chunk over the encoded packet changes nothing; fails exactly on a chunk over 48 bytes |
| FastPath.ChunkOnWire | internal/clipboard/clipboard.go:110-156 | bytes 16..63 begin with the chunk, are exactly it when full, and otherwise end in a space |
| FastPath.Accumulator.Feed | internal/clipboard/clipboard.go:164-181 | the buffer grows by the chunk's wire image only on a good chunk; done only on the terminator |
| FastPath.FedExactly | internal/clipboard/clipboard.go:164-181 | only 64 byte packets of types 124 and 125 go on, only type 76 ends, all else is refused |
| FastPath.Accumulator.Contents | internal/clipboard/clipboard.go:184-187 | a prefix of the buffer from which only zeros are cut, and all of them: it does not end in one |
| FastPath.FastPathDelivers | internal/clipboard/clipboard.go:86-181 | every packet of a chunked transfer is accepted after encoding and decoding, and completion is reported on the terminator alone |
| FastPath.AccumulatedHasData | internal/clipboard/clipboard.go:159-187 | the buffer has the data as a prefix and less than one chunk more, none exactly when 48 divides the length; a short last chunk leaves a space at the end |
| FastPath.ContentsExact | internal/clipboard/clipboard.go:184-187 | the trimmed contents are the data if and only if 48 divides its length and it does not end in a zero byte |
| Geometry.NormalizeMonotone | internal/util/util.go:35-46 | monotone, in 0..65534, never 65535 |
| Geometry.DenormalizeMonotone | internal/util/util.go:49-57 | monotone on non-empty and empty ranges |
| Geometry.DenormalizeRange | internal/util/util.go:49-57 | always within [lo, hi], and below hi exactly for grid points below 65535 |
| Geometry.GridRoundTrip | internal/util/util.go:35-57 | a pixel comes back on the screen, at most ceil(span/65535) to its left; at most one pixel on spans up to 65535 |
| Geometry.EdgesAreStrips | internal/input/input.go:64-78 | each of the four edges is reported exactly when the point is on or beyond its last pixel, left before right and sideways before up and down |
| Geometry.ComesInOpposite | internal/input/input.go:98-115 | for every edge, the pointer lands in the half of the peer's screen opposite to the edge it left by |
| Geometry.TruncatesToZero | internal/util/util.go:45-56 | division rounds toward zero on both sides of it |
| Geometry.LowEntry | internal/input/input.go:85-117 | an inset of j grid steps from the low side of a span w clears both strips if and only if j * w >= 65535 |
| Geometry.HighEntry | internal/input/input.go:85-117 | from the high side if and only if j * w > 65535 |
| Geometry.AntiBounce | internal/input/input.go:80-117 | for every pair of screens and every edge: the landing point re-triggers no edge of the crossed axis if and only if that holds for the inset used, hence always when the peer's screen is no smaller |
| Geometry.BouncesIntoSmaller | internal/input/input.go:80-117 | from 3840 to 1280 pixels the landing point fires the left edge |
| Geometry.LandsAlongside | internal/input/input.go:98-115 | between screens of equal extent the pointer keeps its place along the edge to one pixel |
| Matrices.FlagsRoundTrip | internal/protocol/matrix.go:16-31 | flags survive the type byte, which stays a 64 byte matrix type |
| Matrices.SlotFromFirst | internal/protocol/matrix.go:140-147 | the lookup finds the first occupied slot whose name matches, and 0 exactly when there is none |
| Matrices.FoundByFoldedName | internal/protocol/matrix.go:140-147 | a lookup finds the first slot in use whose trimmed and folded name is that asked for, and 0 if and only if none is |
| Matrices.NotEmptyByOne | internal/protocol/matrix.go:35-42 | a layout is not empty if and only if some slot holds more than blanks |
| Matrices.WalkRow | internal/protocol/matrix.go:75-103 | the four-step loop stops at the first occupied other slot or the end of an unwrapped row |
| Matrices.Neighbor | internal/protocol/matrix.go:68-136 | the row loop and the grid branches together compute the neighbour the lemmas below describe |
| Matrices.NeighborSound | internal/protocol/matrix.go:68-136 | a neighbour is an occupied slot other than one's own |
| Matrices.NearestInRow | internal/protocol/matrix.go:75-103 | in a row the left and the right neighbour are the nearest occupied slots that way, around the circle when wrapping; none exactly when there is none that way, our own slot occupied or not |
| Matrices.NeighborInGrid | internal/protocol/matrix.go:104-135 | in the 2x2 grid, which slot each direction leads to, for all directions and flags |
| Matrices.NothingAboveRow | internal/protocol/matrix.go:75-85 | in a single row nothing lies up or down |
| Matrices.NoNeighborOutside | internal/protocol/matrix.go:69-71 | there is no neighbour of a slot outside 1..4 |
| Matrices.ThereAndBack | internal/protocol/matrix.go:68-136 | in every layout, leaving through an edge and coming back through the opposite one returns to the same slot |
| Switchers.Switcher.RequestSwitch | internal/input/input.go:192-206 | whatever the consumer does between its selects, the new request ends up in the slot |
| Switchers.NewestNeverLost | internal/input/input.go:192-206 | in every interleaving requests are seen in order and at most once, only older ones are dropped, and the newest is in the slot or taken |
| Hosts.Host.OnCapture | internal/host/host.go:123-199 | the whole new state for every event: tracker, arming, at most one request, at most one queued event |
| HostEdge.RequestedExactly | internal/host/host.go:123-191 | from position and layout alone: a captured move makes a request if and only if the host has the focus, is armed, stands at an edge, and somebody sits beyond it; the request names that edge, the nearest slot in use that way (in a row) or the slot beside, above or below (in the grid), and the entry point there |
| HostEdge.SentBeyondEdge | internal/host/host.go:246-256 | a request whose slot has become ours or empty goes beyond the same edge of the layout as it then is, any other where it said |
| HostEdge.TrackerFollows | internal/host/host.go:127-163 | relative moves add to the tracker, absolute ones replace it, as far as the desktop goes |
| HostEdge.RearmedExactly | internal/host/host.go:164-171 | a fired edge is armed again exactly by a move that ends more than 16 pixels inside every edge pixel |
| HostEdge.DeltasQueued | internal/host/host.go:127-176 | the delta queued while away is the motion itself, or for an absolute position what leads to it from the one before; it counts once there was one |
| HostEdge.QueuedOrLost | internal/host/host.go:172-209 | while away every event is queued behind the others, or lost when 64 are; at home none is |
| HostEdge.SwitchMade | internal/host/host.go:246-275 | a request with somewhere to go moves the focus there once the switch packet is out, and nothing when that fails |
| HostEdge.ReturnLands | internal/host/host.go:337-367 | a return puts the cursor where the entry point denormalises to, and the tracker there unless the backend keeps its own |
| HostEdge.PushesReachTheEntry | internal/host/host.go:348-358 | on desktops of up to 20000 pixels the pushes drive the cursor into exactly the edges of the entry, from anywhere |
| Hosts.Host.TrackMove | internal/host/host.go:124-172 | relative or absolute tracking, clamping and re-arming, with the deltas reported before clamping |
| Hosts.Host.Enqueue | internal/host/host.go:201-209 | a full queue drops the newest event |
| Hosts.Host.DoSwitch | internal/host/host.go:246-275 | modifiers released at the old focus, then the packets, then the focus moves; stops early when there is no destination or the packet fails |
| Hosts.Host.Forward | internal/host/host.go:278-314 | the oldest queued event leaves the queue; at most one packet results, an input packet from us to the machine that has the focus, and none while that is ourselves |
| Hosts.Host.OnNextMachine | internal/host/host.go:337-367 | the focus returns; edge blasts and warp by backend kind; the tracker is re-anchored only without `SetPosition` |
| HostRun.Hysteresis | internal/host/host.go:34-38 | over whole runs: between any two switch requests the tracker dives into the inset box on an event that fires nothing, so it travels at least 34 pixels in the max norm, re-anchoring jumps included |
| HostRun.TakeTurn | internal/host/host.go:102-120 | the program's methods take exactly the turns of the run model |
| HostRun.EveryPacketExplained | internal/host/host.go:246-367 | in every run, each output is explained by the very turn that produced it and the state that turn found: a switch packet carries the pending entry point and names a slot occupied in the layout read at that switch and different from self; forwarded input goes to the machine that has the focus; releases are addressed to the old focus; every cursor call has its one cause |
| HostRun.FocusIsTold | internal/host/host.go:168-171 | in every run, however our slot changes: the focus is at the machine of the last switch announced and not ended since, or else at the slot we had when it last came home |
| HostRun.FocusFollowsTold | internal/host/host.go:246-275 | while our slot does not change, the focus is away exactly when some machine was told so, and then at that one |
| HostRun.StrayForward | internal/host/host.go:278-314 | a forwarded event goes to a machine that was not told if and only if nobody is told and our slot differs from the one at the last return or the start |
| HostRun.RenumberedHostStrays | internal/host/host.go:194-198 | a two-turn run in which a keystroke goes to machine 1 and no switch packet was ever sent |
| HostRun.SwitchReleases | internal/host/host.go:257-274 | a completed switch first sends every modifier release, addressed to the old focus, and then its announcements, in order |
| Delivery.ForwardedInputArrives | cmd/mwb-client/serve.go:65-115 | from captured event to injected event: no packet exactly for an event that means nothing elsewhere; else one packet that survives encoding, decoding and dispatch, and the machine with the focus injects exactly that event if and only if the wire's integers are wide enough; no other machine injects anything |
| Delivery.MotionArrives | internal/host/host.go:284-300 | marked deltas come off again exactly when both fit under the marker |
| Delivery.SwitchDoesNotBounce | internal/host/host.go:337-367 | a switch request arrives unharmed, and on a screen no smaller the receiving host stands where no edge of the crossed axis fires |
| Delivery.ReleaseInjected | cmd/mwb-client/serve.go:65-72 | a modifier release is injected by the old focus, if it has the focus itself, and by no other machine |
| Delivery.ReleasesReachNobody | internal/host/host.go:257-259 | in every run in which our slot does not change, no other machine injects any release of any switch |
| Delivery.SwitchReclaimsEveryone | cmd/mwb-client/serve.go:60-64 | every machine that gets a switch packet, whatever its destination, then has its own focus at home and forwards nothing; what follows to the destination is injected there and nowhere else |
| Delivery.BystanderLosesFocus | internal/net/dispatch.go:136-141 | a switch between two machines pulls a third one's focus home, so that what it captures next is no longer forwarded |
| Pools.LearnedInjective | internal/net/pool.go:26-41 | learning keeps one name per slot and one slot per name |
| Pools.PoolIsSmall | internal/net/pool.go:26-41 | so there are never more than four names |
| Pools.Pool.Learn | internal/net/pool.go:26-41 | binds the name, evicts every other holder of the slot, and keeps a timestamp for exactly the names in the pool |
| Pools.Pool.Touch | internal/net/pool.go:51-57 | refreshes a known name and invents none |
| Pools.Pool.IDOf | internal/net/pool.go:44-48 | zero exactly for an unknown name; no two names share an answer that is not zero |
| Layouts.JoinerPlaced | internal/net/server.go:206-231 | a joiner ends without a slot exactly when it is nameless, or new to a layout with no vacancy |
| Layouts.NewcomerTakesFirst | internal/net/server.go:218-227 | a newcomer takes the first vacant slot and changes nothing else; nothing changes when it is already there or none is vacant |
| Layouts.OwnNameSeatsOnce | internal/protocol/matrix.go:45-52 | a peer with our own name gets no second slot |
| Layouts.FirstPeerSeats | internal/net/server.go:211-229 | the first peer of an empty server is guessed into slot 2 if its name is another, the server into slot 1, and the layout is marked a guess |
| Layouts.JoinKeepsLookup | internal/net/server.go:206-231 | whoever was found at a non-blank slot is still found there after another's arrival |
| Layouts.JoinsAreStable | internal/net/server.go:206-231 | over any series of joins non-blank slots keep their names and lookups their answers |
| Layouts.JoinerKeepsSeat | internal/net/server.go:206-231 | while there is a vacancy every joiner gets a slot, and is found in it after all later joins |
| Layouts.AntiClobber | internal/net/server.go:206-254 | in every interleaving of the locked regions, before a layout may be sent on trust a configuration or matrix packet has left something in it, and no guess was adopted since |
| Guesses.SlotHasAuthor | internal/net/server.go:206-231 | in every run, each occupied slot still holds what the last turn that wrote it offered: a configuration, a packet for that slot, a joiner, or an adoption |
| Guesses.SharedExactly | internal/net/server.go:241-247 | a layout that is not empty may be sent on trust if and only if something was merged or configured since the last adoption, or nothing was ever adopted |
| Guesses.GuessSent | internal/net/server.go:206-254 | a slot that still holds the server's guess is sent on trust if and only if since the last adoption something was merged, nothing for that slot, and nothing was configured |
| Guesses.NoGuessLeft | internal/net/dispatch.go:174-191 | after a configuration, or packets for the first two slots as a whole burst brings, no slot holds a guess |
| Guesses.EmptyPacketReleasesGuess | internal/net/dispatch.go:174-187 | a run in which a nameless packet for a vacant slot gets the untouched guess sent |
| Guesses.HalfBurstReleasesGuess | internal/net/dispatch.go:174-187 | a run in which the first packet of a burst gets a layout with a guessed second slot sent |
| Servers.Server.SetMatrix | internal/net/server_send.go:56-63 | the configured layout replaces the old one; it ends a guess exactly when it is not empty |
| Servers.Server.TrustPeer | internal/net/server.go:206-234 | the locked region of an arrival: adoption, first vacancy, and what the pool learns |
| Servers.Server.SendMatrixBurst | internal/net/server.go:274-288 | the four slot packets under consecutive ids, appended to what was sent before |
| Servers.Server.MergeMatrix | internal/net/dispatch.go:174-191 | one slot packet folded in, flags and callback only with the fourth, a guess ended once anything is known |
| Servers.Server.HandlePacket | internal/net/dispatch.go:105-168 | layout, pool, callbacks, replies and the close verdict for every packet |
| Servers.Server.ServeLeg | internal/net/dispatch.go:81-102 | the loop from raw stream to handler: the state it ends in is that of running the decoded packets through window and handler, and exactly the new replies were written |
| Servers.PoolInEveryRun | internal/net/dispatch.go:105-110 | in every run of a leg the pool stays injective into 1..4 with at most four names |
| Servers.InputArrives | internal/net/server_send.go:80-97 | key and mouse packets arrive at the callback with every field intact, layout undisturbed |
| Servers.SwitchArrives | internal/net/server_send.go:100-104 | so do switch packets, with destination and entry point |
| Servers.ClipboardArrives | internal/net/server_send.go:117-130 | so do beats and asks, with the normalised name |
| Servers.OnlyMatrixPacketsMatter | internal/net/dispatch.go:105-191 | the layout after any packets is that after the matrix packets among them |
| Servers.BurstMerges | internal/net/dispatch.go:174-191 | merging the four packets of a burst in order from any layout gives exactly the sender's |
| Servers.SlotPacketEffects | internal/net/dispatch.go:174-191 | a slot packet sets its slot and no other; only the fourth sets the flags and reports the layout |
| Servers.NamelessTeachesNothing | internal/net/dispatch.go:106-109 | a packet without a name or from no slot teaches the pool nothing |
| Servers.BurstReplicates | internal/net/dispatch.go:105-191 | from any prior state and with any other packets mixed in, a burst leaves the receiver with the sender's flags and slots as names travel, so exactly the sender's layout if and only if no name exceeds 32 bytes or ends in padding |
| Servers.BurstTeachesPool | internal/net/dispatch.go:105-110 | a burst handled in one piece makes the pool map every occupied name to its slot, if the names arrive distinct |
| Servers.FreshAllHandled | internal/net/dispatch.go:81-102 | packets with new distinct ids all pass the window and reach the handler |
| ServeRuns.ServesWhatPasses | internal/net/dispatch.go:81-102 | up to a packet that closes the leg, the handler gets exactly the packets that are not copies of one of the last 50 accepted, in order, each once, and the window remembers exactly those |
| ServeRuns.CopySkipped | internal/net/dispatch.go:94-96 | a copy of one of the last 50 accepted, anywhere in the stream, changes nothing at all |
| ServeRuns.NothingAfterClose | internal/net/dispatch.go:98-100 | nothing after an accepted packet that closes the leg is handled |
| ServeRuns.ServedAsAccepted | internal/net/dispatch.go:81-102 | however one sender's packets are spread over legs, delayed and repeated, the handler gets exactly those the run of the legs accepts, in that order |
| ServeRuns.BroadcastsServedOnce | internal/net/dispatch.go:81-102 | with broadcasts and no copy too late, each broadcast is handled once, in sending order, and all of them once a leg that never failed has drained |
| ServeRuns.KeysArriveOnce | internal/net/dispatch.go:142-145 | so keystrokes broadcast over any number of legs are reported in the order typed, each once |
| WireForms.LongTypes | internal/protocol/const.go:67-88 | by number, the types whose frames are 64 bytes, and what a type is without its flags |
| WireForms.InputForms | internal/net/server_send.go:80-114 | key, mouse, switch and leave packets are 32 bytes of types 122, 123, 121, 50 and 77, and a reader takes exactly those |
| WireForms.PresenceForms | internal/net/server.go:263-288 | presence, clipboard beats and asks and layout slots are 64 bytes of their types, the level 3 answer 32, and a reader takes exactly those |
| WireForms.SessionForms | internal/clipboard/clipboard.go:86-107 | so for handshake, transfer header and fast path packets |
| WireForms.OwnSlot | internal/net/dispatch.go:194-201 | our slot is where our name is found, and the first while it is not |
| WireForms.HelloAnswered | internal/net/dispatch.go:112-118 | a hello is answered by one type 51 packet with our name, slot and next id, and reported as not awake |
| WireForms.LevelTwoAnswered | internal/net/dispatch.go:154-164 | a level 2 heartbeat is answered by one nameless type 53 packet and reported to nobody |
| WireForms.BeatsReported | internal/net/dispatch.go:119-123 | heartbeats are reported and not answered, and only type 21 says awake |
| WireForms.OthersAreSilent | internal/net/dispatch.go:105-168 | only type 4 closes a leg; types without an arm change nothing but the pool |
| Servers.BurstOverTheWire | internal/net/server.go:274-288 | bytes of a burst read, framed, decoded, deduplicated and handled by the peer replicate layout and pool |

## Left out

- Sockets, dialling, listening, deadlines, retries, throttling sleeps, LAN scan and dial-back: input, output and time only.
- Key derivation, salts, the noise block exchanged before the stream starts, and the top bits of the magic: library
  functions; a connection starts from two ciphers and two ivs.
- Failing writes of a connection after it was trusted, and dropping its leg; in `FanOut` a leg may stop accepting writes.
- FanOut.Broadcaster.Broadcast: one call at a time; two side by side are the Draw and Put steps of `Legs`.
- Several senders behind one window, whose counters all start at 0.
- Files on disk: the temporary file and rename, the base name, the receive directory; a received file is its contents.
- Deflate and image sniffing; the text of a transfer is whatever the inflater parameter makes of the payload.
- A sink that itself fails, and the error texts; errors are kept apart by kind.
- The clipboard manager, the daemon's wiring of clipboard connections, configuration, command line and user interface.
- The client role of internal/net/client.go, which repeats the senders on one leg.
- Delivery.SwitchDoesNotBounce: for a peer on the re-anchoring path; a backend with `SetPosition` keeps its own tracker.
- Screen backends: their capture, injection and cursor calls appear as events in and calls out.
- The key map, a finite table.
- Geometry.NormalizeMonotone: is over unbounded integers, so the 64-bit overflow of the product on spans beyond 2^47 is not shown.
- HandshakeRun.HandshakeIsSafe: the channels carry whole packets; `HandshakeWire` has the bytes of one side against an honest peer, but not two programs interleaved byte by byte.
- Hosts.Host.DoSwitch: layout and own slot are read once per call; the code reads the slot again in some helpers.
- Hosts.Host.OnCapture: the whole callback is one step, although the arming flag is read outside the lock.
- Servers.Server.HandlePacket: every optional callback is taken as present, and a failed reply is not modelled, as the code ignores it.
- Servers.Server.ServeLeg: one leg at a time; other legs interleave between its packets through the same lemmas on `Handled`.
- Session.Serve: the holder's kind argument, which the code discards, is not modelled.
