/** The command dispatcher and its handlers.  A handler sees the whole
    128-byte request buffer, not just the bytes of the current frame: fields
    sit at fixed offsets (LEN at 3, command at 6, data from 7) and a field
    beyond the frame reads whatever an earlier frame left there. */
module Commands {
  import opened Bytes
  import opened Optional
  import opened Nfc
  import HostLink

  const BufferSize: nat := HostLink.FrameCapacity

  /** The request message buffer. */
  type Buffer = b: seq<uint8> | |b| == BufferSize witness seq(BufferSize, _ => 0)

  /** The LEN field of the request header. */
  function Len(raw: Buffer): uint8 { raw[3] }

  /** The request's command byte. */
  function Cmd(raw: Buffer): uint8 { raw[6] }

  /** Byte `i` of the request's data area. */
  function Data(raw: Buffer, i: nat): uint8
    requires i < BufferSize - 7
  {
    raw[7 + i]
  }

  /** A reply payload: it fits one frame of the 128-byte message buffer. */
  type Payload = p: seq<uint8> | |p| <= HostLink.MaxPayload

  /** What a handler sends back: nothing, the bare ACK, or one information
      frame answering with command byte `cmd`. */
  datatype Response = Silent | Acked | Answered(cmd: uint8, payload: Payload)

  /** The bytes a response puts on the line; the host tells the three kinds
      apart and decodes an answer back to its command and payload. */
  function Wire(resp: Response): (f: seq<uint8>)
    ensures resp.Silent? <==> f == []
    ensures resp.Acked? <==> f == HostLink.Ack
    ensures resp.Answered? ==>
              HostLink.Parse(f) == Some(HostLink.Info(HostLink.ToHost, resp.cmd, resp.payload))
  {
    match resp
    case Silent => []
    case Acked => HostLink.Ack
    case Answered(cmd, payload) =>
      HostLink.ParseEncode(HostLink.ToHost, cmd, payload);
      HostLink.Encode(HostLink.ToHost, cmd, payload)
  }

  /** What handling one frame does: the request buffer afterwards (the FeliCa
      handler writes into it), the response, and the driver calls made. */
  datatype Handled = Handled(request: Buffer, response: Response, calls: seq<DriverCall>)

  /** The reply to the request's command: the command byte plus one, in 8
      bits, carrying `payload`. */
  function Answer(raw: Buffer, payload: Payload, calls: seq<DriverCall>): Handled
  {
    Handled(raw, Answered((Cmd(raw) as int + 1) % 0x100, payload), calls)
  }

  const CapabilityReply: seq<uint8> := [0xFF, 0x3F, 0x0E, 0xF1, 0xFF, 0x3F, 0x0E, 0xF1]
  const FirmwareReply: seq<uint8> := [0xDC, 0xF4, 0x3F, 0x11, 0x4D, 0x85, 0x61, 0xF1, 0x26, 0x6A, 0x87]
  const NoCardReport: seq<uint8> := [0x00, 0x00, 0x00]
  const MifareReportHead: seq<uint8> := [0x01, 0x01, 0x00, 0x04, 0x08, 0x04]
  const FelicaReportHead: seq<uint8> := [0x01, 0x01, 0x14, 0x01]
  /** Status byte of a failed Mifare block read. */
  const ReadFailed: uint8 := 0x14

  /** How the host reads a card report back. */
  function DecodeReport(p: seq<uint8>): Option<Detected>
  {
    if p == NoCardReport then Some(NoCard)
    else if |p| == 10 && p[..6] == MifareReportHead then Some(MifareCard(p[6..]))
    else if |p| == 22 && p[..4] == FelicaReportHead then Some(FelicaCard(p[4..12], p[12..20], p[20..]))
    else None
  }

  /** The poll report for a detected card: one card at most, Mifare reports
      are 10 bytes and FeliCa reports 22. */
  function CardReport(card: Detected): (p: seq<uint8>)
    ensures |p| <= 22
    ensures DecodeReport(p) == Some(card)
  {
    match card
    case MifareCard(uid) =>
      var p := MifareReportHead + uid;
      assert p[..6] == MifareReportHead && p[6..] == uid;
      p
    case FelicaCard(idm, pmm, code) =>
      var p := FelicaReportHead + idm + pmm + code;
      assert p[..4] == FelicaReportHead && p[4..12] == idm && p[12..20] == pmm && p[20..] == code;
      p
    case NoCard => NoCardReport
  }

  /** Opcode 0x4A: poll for a card and report it. */
  function PollCard(raw: Buffer, t: Transceiver): (h: Handled)
    ensures h.request == raw
  {
    Answer(raw, CardReport(t.detect), [Detect])
  }

  /** Opcode 0x40: the Mifare sub-protocol, selected by data[1].  An
      authentication record is `unk, cmd, block, key[6], uid[4]` and a read
      record `unk, cmd, block`. */
  function Mifare(raw: Buffer, t: Transceiver): (h: Handled)
    ensures h.request == raw
  {
    var sub := Data(raw, 1);
    var block := Data(raw, 2);
    if sub == 0x60 || sub == 0x61 then
      var keyIndex: uint8 := if sub == 0x60 then 0 else 1;
      var key := raw[10..16];
      var uid: Uid := raw[16..20];
      var ok := t.mifareAuth(uid, block, keyIndex, key);
      Answer(raw, if ok then [0x00] else [0x01], [MifareAuth(uid, block, keyIndex, key)])
    else if sub == 0x30 then
      match t.mifareRead(block)
      case Some(data) => Answer(raw, [0x00] + data, [MifareRead(block)])
      case None => Answer(raw, [ReadFailed], [MifareRead(block)])
    else
      Handled(raw, Acked, [])
  }

  /** FeliCa read-without-encryption request body, from data[4]:
      `IDm[8], service count, service[2], block count, block[n][2]`. */
  function BlockCount(raw: Buffer): (n: nat)
    ensures n <= 4 && n <= Data(raw, 15) && (n == 4 || n == Data(raw, 15))
  {
    if Data(raw, 15) > 4 then 4 else Data(raw, 15)
  }

  /** The service code, stored little-endian. */
  function ServiceCode(raw: Buffer): uint16
  {
    Data(raw, 13) + Data(raw, 14) * 0x100
  }

  /** Block code `i`, stored big-endian. */
  function BlockCode(raw: Buffer, i: nat): uint16
    requires i < 4
  {
    Data(raw, 16 + 2 * i) * 0x100 + Data(raw, 17 + 2 * i)
  }

  /** The 16-byte slot the driver fills for block `i`. */
  function Slot(raw: Buffer, t: Transceiver, i: nat): Block
    requires i < 4
  {
    t.felicaRead(i, ServiceCode(raw), BlockCode(raw, i))
  }

  datatype Reads = Reads(data: seq<uint8>, calls: seq<DriverCall>)

  /** Reads the first `n` requested blocks in order, one driver call each;
      slot `i` of the result holds what the driver left for block `i`. */
  function ReadBlocks(raw: Buffer, t: Transceiver, n: nat): (r: Reads)
    requires n <= 4
    ensures |r.data| == 16 * n && |r.calls| == n
    ensures forall i :: 0 <= i < n ==> r.calls[i] == FelicaRead(ServiceCode(raw), BlockCode(raw, i))
    ensures forall i :: 0 <= i < n ==> r.data[16 * i .. 16 * i + 16] == Slot(raw, t, i)
  {
    if n == 0 then Reads([], [])
    else
      var prev := ReadBlocks(raw, t, n - 1);
      var r := Reads(prev.data + Slot(raw, t, n - 1),
                     prev.calls + [FelicaRead(ServiceCode(raw), BlockCode(raw, n - 1))]);
      assert forall i :: 0 <= i < n - 1 ==> r.data[16 * i .. 16 * i + 16] == prev.data[16 * i .. 16 * i + 16];
      assert r.data[16 * (n - 1) .. 16 * n] == Slot(raw, t, n - 1);
      r
  }

  /** The read-without-encryption payload: `status 0, len, cmd 07, IDm[8],
      00 00, n, n blocks of 16 bytes`, with n the block count clamped to 4. */
  function ReadPayload(raw: Buffer, t: Transceiver): (p: seq<uint8>)
    ensures |p| == 14 + 16 * BlockCount(raw)
  {
    var n := BlockCount(raw);
    [0x00, 13 + 16 * n, 0x07] + raw[11..19] + [0x00, 0x00, n] + ReadBlocks(raw, t, n).data
  }

  /** Reads the requested blocks and answers with the payload above. */
  function ReadWithoutEncryption(raw: Buffer, t: Transceiver): (h: Handled)
    ensures h.request == raw
  {
    Answer(raw, ReadPayload(raw, t), ReadBlocks(raw, t, BlockCount(raw)).calls)
  }

  /** Opcode 0xA0: only sub-command 0x06 (data[3]) is served.  The guard
      assigns `len - 2` (in 8 bits) to data[2] rather than comparing it, so a
      0x06 request always overwrites data[2], and it goes on to read only when
      that value is non-zero, that is when LEN is not 2.  Otherwise nothing is
      sent. */
  function Felica(raw: Buffer, t: Transceiver): (h: Handled)
    ensures h.request == raw || (Data(raw, 3) == 0x06 && h.request == raw[9 := (Len(raw) as int - 2) % 0x100])
  {
    if Data(raw, 3) != 0x06 then Handled(raw, Silent, [])
    else
      var written := (Len(raw) as int - 2) % 0x100;
      var raw' := raw[9 := written];
      if written == 0 then Handled(raw', Silent, []) else ReadWithoutEncryption(raw', t)
  }

  /** The opcodes the dispatcher serves; the Mifare opcode only with a
      sub-opcode it knows. */
  predicate Recognised(raw: Buffer)
  {
    || Cmd(raw) in {0x18, 0x12, 0x0E, 0x08, 0x06, 0x32, 0x0C, 0x4A, 0x44, 0xA0, 0x52, 0x54}
    || (Cmd(raw) == 0x40 && Data(raw, 1) in {0x60, 0x61, 0x30})
  }

  /** What a request answered without consulting the card gets back. */
  datatype Canned = Canned(payload: seq<uint8>, calls: seq<DriverCall>)

  /** The requests answered with a fixed payload: status (0x0C), version
      (0x06), GPIO (0x0E), RF field (0x08, 0x32), select, deselect and release
      (0x54, 0x44, 0x52), and 0x18 / 0x12.  GPIO has no effect here, and the
      argument the firmware passes for the empty replies is ignored. */
  function Simple(raw: Buffer): (r: Option<Canned>)
    ensures r.Some? ==> |r.value.payload| <= 11
  {
    match Cmd(raw)
    case 0x18 | 0x12 | 0x0E => Some(Canned([], []))
    case 0x08 => Some(Canned([0x00], [RfField(false)]))
    case 0x06 => Some(Canned(if Data(raw, 1) == 0x1C then CapabilityReply else FirmwareReply, []))
    case 0x32 => Some(Canned([], [RfField(raw[7..9] != [0x01, 0x00])]))
    case 0x0C => Some(Canned([0x00, 0x06, 0x00], []))
    case 0x44 => Some(Canned([0x01, 0x00], [Deselect]))
    case 0x52 => Some(Canned([0x01, 0x00], []))
    case 0x54 => Some(Canned([0x00], [Select]))
    case _ => None
  }

  /** Handles one complete request frame.  Only the FeliCa handler writes to
      the request buffer, and only its byte 9 (data[2]). */
  function HandleFrame(raw: Buffer, t: Transceiver): (h: Handled)
    ensures forall i :: 0 <= i < BufferSize && i != 9 ==> h.request[i] == raw[i]
    ensures h.request[9] != raw[9] ==>
              Cmd(raw) == 0xA0 && Data(raw, 3) == 0x06 && h.request[9] == (Len(raw) as int + 254) % 0x100
  {
    assert Data(raw, 3) == 0x06 ==> raw[9 := (Len(raw) as int - 2) % 0x100][9] == (Len(raw) as int + 254) % 0x100;
    match Cmd(raw)
    case 0x4A => PollCard(raw, t)
    case 0x40 => Mifare(raw, t)
    case 0xA0 => Felica(raw, t)
    case _ =>
      match Simple(raw)
      case Some(canned) => Answer(raw, canned.payload, canned.calls)
      case None => Handled(raw, Acked, [])
  }
}
