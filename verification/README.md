# BANA reader core and ST7789 frame buffer, modelled in Dafny

This project models two pieces of an RP2040 card-reader firmware.

**The BANA reader protocol engine** (`firmware/src/lib/bana.c`). The host
talks to the reader over a serial line in the PN532 / RC-S620S framing of
NXP's PN532 User Manual UM0701-02: section 6.2.1.1 gives the normal
information frame and section 6.2.1.3 the ACK frame. The model covers:

- `HostLink`: the frame format, the reply encoder (`send_response`,
  `send_response_data`, `send_ack`) and a host-side decoder as its partner.
  The decoder and the encoder are proved to be exact inverses.
- `Commands`: the dispatcher `handle_frame` and every command handler, as
  pure functions of the 128-byte request buffer. A response is symbolic
  (`Silent`, `Acked` or `Answered(cmd, payload)`), and `Wire` gives the bytes
  it puts on the line. The contactless driver is an oracle (`Nfc.Transceiver`)
  that records what it answers. The handlers also return the list of driver
  calls they make, in order.
- `CommandReplies`: what the host decodes for every opcode. It states the
  status, version, RF-field, GPIO, select, deselect and release answers,
  the card-poll report, Mifare authenticate and read, and FeliCa
  read-without-encryption including its assignment-in-guard. It also states
  that every request gets at most one frame back.
- `BanaReader`: the byte-at-a-time frame synchroniser `bana_feed` as a pure
  step over the parser state, together with the activity tracker
  (`expire_time`, `bana_is_active`). The synchroniser takes the dispatcher
  as a parameter (`Dispatcher`). The firmware's own dispatcher is
  `HandleWith(t)`. A run of bytes (`Run`) is fed in order.
- `FrameSync`: the synchroniser's properties over runs:
  - every reachable state is in sync;
  - the wake tone is dropped;
  - the preamble search slides one byte at a time;
  - an empty header is dropped;
  - a gap resynchronises;
  - a well-framed request is dispatched exactly once, at its last byte, even
    after two bytes of garbage;
  - an encoded status query is answered with exactly the expected frame.

**The ST7789 drawing primitives** (`firmware/src/st7789.c`). These are the
colour packer and the clipped writes into the 320 x 240 off-screen buffer:
clear, pixel, horizontal and vertical line, bar, and the integer line
drawer. `Framebuffer.Fill` is the reference that every rectangle primitive
is proved equal to. For the line drawer, `Lines.Walk` proves what the
error-term walk promises:

- it starts and ends at the end points;
- it takes exactly one step per pixel of the longer side;
- consecutive points are neighbours;
- it stays inside the end points' box;
- it never strays a full pixel from the ideal line.

Integers of the firmware are bounded subset types of `int`. The 8-, 32- and
64-bit wrap-arounds that matter are written out: checksums, `request.cmd + 1`,
the elapsed-time subtraction and the expiry time.

## Model

| member | source | states |
|---|---|---|
| Bytes.Negate | firmware/src/lib/bana.c:106 | `~b + 1` in 8 bits is the byte that sums with `b` to 0 modulo 256 |
| HostLink.Encode | firmware/src/lib/bana.c:98-130 | the reply frame is payload + 9 bytes and fits the 128-byte buffer; it starts with `00 00 FF`; LEN is payload + 2 and LEN + LCS is 0 mod 256; then TFI, CMD and the payload; TFI + CMD + payload + DCS is 0 mod 256; it ends with 00 |
| HostLink.Parse | firmware/src/lib/bana.c:98-140 | the host-side decoder: exactly the 6-byte ACK decodes as an ACK; an accepted information frame is its payload + 9 bytes long |
| HostLink.ParseEncode | firmware/src/lib/bana.c:98-130 | decoding an encoded frame gives back its direction, command and payload |
| HostLink.EncodeParse | firmware/src/lib/bana.c:98-130 | every frame the decoder accepts is the encoding of what it decodes to, so the encoding is unique |
| HostLink.Checksums | firmware/src/lib/bana.c:100-108 | in a frame with valid checksums, LCS and DCS are determined by LEN and by the bytes they protect |
| HostLink.SendResponse | firmware/src/lib/bana.c:98-130 | the bytes the send routine builds are the encoding of the reply with command byte request + 1 mod 256, and the host decodes them back to exactly that |
| HostLink.SeededSum | firmware/src/lib/bana.c:100-103 | the running checksum seeded with 0xFF is `(0xFF + sum) mod 256` |
| HostLink.ComplementOfSeededSum | firmware/src/lib/bana.c:100-108 | `~checksum` of the seeded sum is the two's-complement negation of the plain sum, so DCS makes the body sum to 0 |
| Commands.Wire | firmware/src/lib/bana.c:98-140 | no response sends nothing, an ACK sends exactly the ACK frame, and an answer sends one frame the host decodes to that command and payload |
| Commands.CardReport | firmware/src/lib/bana.c:161-193 | a card report is at most 22 bytes, and the host decodes it back to the card polled: none, Mifare with its UID, or FeliCa with IDm, PMm and system code |
| Commands.PollCard | firmware/src/lib/bana.c:195-213 | polling leaves the request buffer unchanged (the reply is stated by CommandReplies.PollReplies) |
| Commands.Mifare | firmware/src/lib/bana.c:254-271 | the Mifare handler leaves the request buffer unchanged (its replies are stated by CommandReplies.MifareReplies) |
| Commands.BlockCount | firmware/src/lib/bana.c:312-315 | the number of blocks read is the requested count clamped to 4 |
| Commands.ReadBlocks | firmware/src/lib/bana.c:324-331 | n blocks give 16n bytes and n driver calls; call i asks for the service code and block code i, and slot i holds what the driver left in reply slot i for that call |
| Commands.ReadPayload | firmware/src/lib/bana.c:302-333 | the read reply payload is 14 + 16n bytes long |
| Commands.ReadWithoutEncryption | firmware/src/lib/bana.c:291-334 | the read leaves the request buffer unchanged |
| Commands.Felica | firmware/src/lib/bana.c:336-350 | the FeliCa handler changes the request buffer only when data[3] is 0x06, and then only data[2], which becomes LEN - 2 in 8 bits |
| Commands.Simple | firmware/src/lib/bana.c:354-398 | every fixed reply payload is at most 11 bytes (the contents are stated by CommandReplies.FixedReplies) |
| Commands.HandleFrame | firmware/src/lib/bana.c:354-404 | handling a frame changes no request byte other than byte 9, and that one only for opcode 0xA0 with sub-command 0x06, where it becomes LEN + 254 mod 256 |
| CommandReplies.ReplyShape | firmware/src/lib/bana.c:354-404 | every request gets one of three things back. An empty response happens only for opcode 0xA0. The bare ACK is sent exactly when the request is not recognised. Otherwise one frame answers the request's command |
| CommandReplies.MifareShape | firmware/src/lib/bana.c:254-271 | for opcode 0x40, the ACK is sent exactly for an unknown sub-command; any other response answers the request's command |
| CommandReplies.FelicaShape | firmware/src/lib/bana.c:336-350 | for opcode 0xA0 no ACK is ever sent, and a non-empty response answers the request's command |
| CommandReplies.AnswerReplies | firmware/src/lib/bana.c:121-130 | an answer is one frame, neither empty nor the ACK, that decodes to command + 1 and the given payload |
| CommandReplies.FixedReplies | firmware/src/lib/bana.c:354-398 | the payload and driver calls of opcodes 18, 12, 0E, 08, 06 (both variants), 32, 0C, 44, 52 and 54; none of them changes the request buffer |
| CommandReplies.PollReplies | firmware/src/lib/bana.c:161-213 | a poll makes one detect call and replies `00 00 00`, `01 01 00 04 08 04 uid`, or `01 01 14 01 IDm PMm code`; the host decodes the report back to the card found |
| CommandReplies.MifareReplies | firmware/src/lib/bana.c:215-271 | for sub-commands 60 and 61: authenticate with key index 0 or 1, block, key and UID from the request, replying 00 on success and 01 on failure. For 30: read the block, replying 00 and the data, or 14 on failure. Any other sub-command: the ACK and no driver call |
| CommandReplies.FelicaGuard | firmware/src/lib/bana.c:336-350 | for opcode 0xA0 a reply is sent if and only if data[3] is 0x06 and LEN is not 2. A 0x06 request always has data[2] overwritten with LEN - 2; any other request leaves the buffer untouched. No reply means no driver call |
| CommandReplies.FelicaReadReply | firmware/src/lib/bana.c:291-350 | the served read replies `00, 13 + 16n, 07, IDm, 00 00, n`, with n the block count clamped to 4 and the payload 14 + 16n bytes long |
| CommandReplies.GuardedRead | firmware/src/lib/bana.c:291-334 | the read reached through the guard replies with that header, stated in terms of the request as received |
| CommandReplies.FelicaDispatch | firmware/src/lib/bana.c:344-346 | a served FeliCa request is handled as a read of the buffer with data[2] overwritten |
| CommandReplies.FelicaReadBlocks | firmware/src/lib/bana.c:324-331 | a served read makes exactly n driver calls, in order: little-endian service code data[13..15] and big-endian block code data[16+2i..18+2i]. Block slot i of the reply is what the driver filled for that call |
| CommandReplies.CallsOfRequest | firmware/src/lib/bana.c:324-328 | the driver calls of the read are the service and block codes decoded from the request as received |
| CommandReplies.SlotsOfRequest | firmware/src/lib/bana.c:324-333 | the block slots of the read's payload are the driver's answers for the codes decoded from the request as received |
| CommandReplies.SlotOfRequest | firmware/src/lib/bana.c:325-328 | overwriting data[2] does not change the service or block codes a slot is read with |
| CommandReplies.ReadAnswer | firmware/src/lib/bana.c:333 | the read replies with one frame carrying its payload, and its driver calls are the block reads |
| CommandReplies.ReadLayout | firmware/src/lib/bana.c:312-322 | the header fields of the read payload: status 0, length 13 + 16n, command 07, IDm, service 00 00, block count n |
| CommandReplies.ReadSlots | firmware/src/lib/bana.c:324-333 | the 16-byte slot i of the read payload is the block the driver filled for block i |
| BanaReader.Init | firmware/src/lib/bana.c:76-96 | the zero-initialised power-on state is in sync, holds no partial frame and is not active |
| BanaReader.Elapsed | firmware/src/lib/bana.c:408-411 | the 32-bit `now - time` is the true gap, or the gap across one wrap of the clock |
| BanaReader.StoreAt | firmware/src/lib/bana.c:410-418 | the byte is stored at the current frame length, unless the buffer is full or the gap exceeds 100 ms; then it is stored at 0 |
| BanaReader.Accumulate | firmware/src/lib/bana.c:417-426 | after the byte is appended: a length of 3 means the preamble is held; a length of 0 means a wake tone was dropped at the start; past the header the byte is appended in place; bytes past the store index are untouched |
| BanaReader.IsActive | firmware/src/lib/bana.c:437-440 | the reader is active exactly while the 64-bit time is below the expiry time (how the expiry moves is stated by FrameSync.ActiveAfterFrame and FrameSync.QuietKeepsActivity) |
| BanaReader.Feed | firmware/src/lib/bana.c:406-435 | a byte adds at most one to the frame length and records its time. A dispatch sends exactly the handler's response and makes its driver calls. It then empties the frame and sets the expiry to now + 10 s in 64 bits. Otherwise nothing is sent and the expiry is kept |
| BanaReader.Run | firmware/src/lib/bana.c:406-435 | a run of bytes keeps the state valid and dispatches at most one frame per byte |
| FrameSync.ReachableSynced | firmware/src/lib/bana.c:406-435 | every state reachable from power-on holds a partial frame that starts with the preamble, is shorter than LEN + 7, and has a non-zero LEN once the header is in |
| FrameSync.FeedKeepsSync | firmware/src/lib/bana.c:406-433 | a byte fed in sync keeps the synchroniser in sync, and a frame it dispatches starts with `00 00 FF` |
| FrameSync.RunKeepsSync | firmware/src/lib/bana.c:406-435 | a run fed in sync stays in sync |
| FrameSync.ResyncAfterGap | firmware/src/lib/bana.c:410-421 | after more than 100 ms of silence the partial frame is abandoned: the byte starts a new frame, or is dropped exactly when it is the wake tone |
| FrameSync.DispatchedFrame | firmware/src/lib/bana.c:429-433 | a dispatched frame is LEN + 7 bytes long, fits the buffer and ends with the byte just fed, so a frame with LEN over 121 never completes |
| FrameSync.StaleBytesKept | firmware/src/lib/bana.c:417-426 | a byte that dispatches nothing changes no buffer byte past the partial frame and past the first two |
| FrameSync.WakeToneDropped | firmware/src/lib/bana.c:420-421 | 0x55 arriving as the first byte of a frame is dropped, with no output and no change to the expiry |
| FrameSync.EmptyHeaderDropped | firmware/src/lib/bana.c:427-428 | a complete six-byte header with LEN 0 (an ACK frame) is dropped without dispatch |
| FrameSync.PreambleSearchSlides | firmware/src/lib/bana.c:422-426 | when three bytes are not `00 00 FF`, only the oldest is dropped and the other two are kept in order |
| FrameSync.ActiveAfterFrame | firmware/src/lib/bana.c:432-440 | after a dispatch (with no 64-bit wrap) the reader is active at a later time if and only if that time is before now + 10 s |
| FrameSync.QuietKeepsActivity | firmware/src/lib/bana.c:427-440 | a byte that completes no frame leaves the reader active at exactly the same times as before |
| FrameSync.PreambleFound | firmware/src/lib/bana.c:417-426 | feeding `00 00 FF` while at most two bytes are held locks onto the preamble, whatever was held |
| FrameSync.FirstZero | firmware/src/lib/bana.c:417-426 | a first 00 leaves one or two bytes held, the last of them 00 |
| FrameSync.SecondZero | firmware/src/lib/bana.c:417-426 | a second 00 in time leaves exactly `00 00` held |
| FrameSync.PreambleCompleted | firmware/src/lib/bana.c:422-426 | FF after `00 00` completes the preamble |
| FrameSync.AssembleRest | firmware/src/lib/bana.c:417-433 | once the first three or more bytes of a frame are held, the rest is appended and the last byte dispatches the frame exactly once. The frame is followed by the buffer's stale bytes |
| FrameSync.QuietStep | firmware/src/lib/bana.c:417-433 | a frame byte before the last only appends |
| FrameSync.LastStep | firmware/src/lib/bana.c:429-433 | the last frame byte dispatches the frame, empties it and sets the expiry |
| FrameSync.AppendByte | firmware/src/lib/bana.c:417-433 | a frame byte in time is appended in place; the last one dispatches the whole frame |
| FrameSync.FrameDispatched | firmware/src/lib/bana.c:406-435 | a well-framed request fed in time while at most two bytes are held is dispatched exactly once, at its last byte, with the expiry set from that byte's time. LCS, TFI and DCS are never checked |
| FrameSync.DispatchRule | firmware/src/lib/bana.c:427-433 | in sync and with at least four bytes held, a byte dispatches the frame if and only if the count reaches LEN + 7 |
| FrameSync.GarbageThenFrame | firmware/src/lib/bana.c:410-433 | two arbitrary bytes fed to an empty buffer cannot hide a following request: it is still dispatched exactly once and answered |
| FrameSync.QuietPair | firmware/src/lib/bana.c:417-426 | two bytes fed to an empty buffer dispatch and send nothing, and leave the rest of the buffer alone |
| FrameSync.StatusQueryAnswered | firmware/src/lib/bana.c:378-379 | end to end: a host-encoded status query (0x0C) fed to an idle reader is answered with exactly the encoded frame `D5 0D 00 06 00` |
| FrameSync.StatusReply | firmware/src/lib/bana.c:378-379 | a buffered status query puts exactly the encoded reply `D5 0D 00 06 00` on the line |
| Framebuffer.Rgb565 | firmware/src/st7789.c:150-153 | the packed pixel holds the top 5 bits of red in bits 11-15, the top 6 of green in bits 5-10 and the top 5 of blue in bits 0-4 |
| Framebuffer.PackingKeepsTopBits | firmware/src/st7789.c:150-153 | two colours pack alike if and only if they agree on the kept bits |
| Framebuffer.Expand | firmware/src/st7789.c:150-153 | widening a pixel back sets only kept bits |
| Framebuffer.PackExpand | firmware/src/st7789.c:150-153 | packing inverts widening, and widening a packed colour recovers exactly its kept bits |
| Framebuffer.Clear | firmware/src/st7789.c:155-158 | the cleared buffer is 320 rows of 240 pixels, all 0 |
| Framebuffer.ClearFillsScreen | firmware/src/st7789.c:155-158 | clearing is filling the whole screen with 0, whatever was there |
| Framebuffer.Fill | firmware/src/st7789.c:191-204 | the reference rectangle write: on-screen pixels inside the rectangle take the colour, all others keep their value |
| Framebuffer.FillOffScreen | firmware/src/st7789.c:193-195 | a rectangle with no pixel on screen changes nothing |
| Framebuffer.Pixel | firmware/src/st7789.c:160-166 | exactly the addressed pixel changes, and an off-screen position changes nothing |
| Framebuffer.PixelIsUnitFill | firmware/src/st7789.c:160-166 | a pixel write is the one-by-one rectangle write |
| Framebuffer.Clip | firmware/src/st7789.c:173 | a clipped length is the requested length, or the length cut off at the edge when that is shorter |
| Framebuffer.PaintRun | firmware/src/st7789.c:175-177 | exactly the n cells from x take the colour; the rest of the row is kept |
| Framebuffer.HLine | firmware/src/st7789.c:168-178 | a horizontal line is the w by 1 rectangle write, clipped at the right edge, and draws nothing from an off-screen origin |
| Framebuffer.VLine | firmware/src/st7789.c:179-189 | a vertical line is the 1 by h rectangle write, clipped at the bottom edge |
| Framebuffer.Bar | firmware/src/st7789.c:191-204 | a bar is the w by h rectangle write, clipped at the right and bottom edges |
| Lines.Plot | firmware/src/st7789.c:213 | plotting a sequence of points colours exactly the on-screen pixels that are among them |
| Lines.WalkStarts | firmware/src/st7789.c:208-210 | the initial error, half of dx or of -dy truncated toward zero, is in the walk's range |
| Lines.WalkEnds | firmware/src/st7789.c:214-216 | the walk has reached the end point if and only if it has reached the end of the longer axis |
| Lines.WalkNear | firmware/src/st7789.c:217-225 | the walk's offset from the ideal line is less than one pixel on the shorter axis |
| Lines.WalkStep | firmware/src/st7789.c:217-225 | a move away from the end point always steps the longer axis and keeps the error term in range |
| Lines.WalkOnTrack | firmware/src/st7789.c:212-225 | the pen's position is inside the box, at the step count along the longer axis, within a pixel of the ideal line |
| Lines.AdvanceOnTrack | firmware/src/st7789.c:217-225 | one move of the pen steps the longer axis and lands on a neighbouring pixel |
| Lines.WalkPlots | firmware/src/st7789.c:212-216 | plotting the pen's point keeps the walk's promises; at the end point there is one point per step of the longer side, plus one |
| Lines.WalkMoves | firmware/src/st7789.c:217-225 | moving away from a point other than the end keeps the walk's promises and brings the pen one step closer |
| Lines.Walk | firmware/src/st7789.c:206-227 | the walk plots max(dx, dy) + 1 points, from (x0, y0) to (x1, y1). Consecutive points are neighbours, and point k is k steps along the longer axis. Every point lies in the box and less than a pixel from the ideal line |
| Lines.Line | firmware/src/st7789.c:206-227 | the line colours exactly the on-screen pixels of that walk and keeps every other pixel |

## Left out

- The LED colour: `led_color` and `bana_led_color` (bana.c:352, 442-445) only ever return 0, and nothing in the core writes the value.
- Debug output (`DEBUG`, `printf`, `display_card`, the `debug` flag): it has no effect on what is sent or stored.
- `bana_init` and the output hook: bytes written through `bana_putc` are the `out` sequence of a step.
- The clocks: `time_us_32` and `time_us_64` readings are parameters of every fed byte.
- `bana_feed`'s return value: it is always `true`.
- BanaReader.Run: one dispatcher (one set of driver answers) serves a whole run. The real driver may answer differently on each call.
- The NFC driver (`nfc.h`) is not part of this model. It is an oracle of answers, and only poll results for Mifare and FeliCa are told apart; every other card type reports no card. A FeliCa block read's success flag only affects debug output, so a slot holds whatever the driver left there. The FeliCa answer is given per reply slot, so two reads of the same codes in one frame may leave different bytes, as the uninitialised `resp` of bana.c:302-310 allows.
- `firmware/include/aime.h` is not part of this model.
- The display's hardware side: SPI, GPIO, PWM and DMA set-up, commands to the panel, and sending the buffer with vsync. Only the off-screen buffer is modelled.
- Handler ordering: a handler's reply and its driver calls are kept apart, so whether a reply goes out before or after a driver call is not modelled. `cmd_select` replies before `nfc_select` (bana.c:275-276); `cmd_deselect`, opcode 0x08 and `cmd_rf_field` call the driver first (bana.c:281-282, 365-366, 153-158).
- Lines.Line: the walk is computed first and then plotted. The walk never reads the buffer, so the same pixels are written in the same order.
- Lines.Walk: the 16-bit wrap of `x0 += sx` and `y0 += sy` is not modelled. The walk is proved to stay inside the end points' box, so it never wraps.
- Commands.Felica: the guard `felica->len = request.hdr.len - 2` is an assignment, not a comparison, and it is modelled as written. A comparison that was meant instead would need the RC-S620S length convention, which the code does not show.
