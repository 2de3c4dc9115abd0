/** What the host reads back for each request the dispatcher handles. */
module CommandReplies {
  import opened Bytes
  import opened Optional
  import opened Nfc
  import HostLink
  import opened Commands

  /** `h` sends exactly one information frame that the host decodes as the
      answer to the request's command carrying `payload`. */
  predicate RepliesWith(raw: Buffer, h: Handled, payload: seq<uint8>)
  {
    HostLink.Parse(Wire(h.response)) == Some(HostLink.Info(HostLink.ToHost, (Cmd(raw) as int + 1) % 0x100, payload))
  }

  /** At most one frame goes back per request: nothing (only ever for the
      FeliCa opcode), the bare ACK (exactly for unrecognised requests), or one
      reply the host decodes as the answer to the request's command. */
  lemma ReplyShape(raw: Buffer, t: Transceiver)
    ensures var h := HandleFrame(raw, t);
      && (Wire(h.response) == [] ==> Cmd(raw) == 0xA0)
      && (Wire(h.response) == HostLink.Ack <==> !Recognised(raw))
      && (Wire(h.response) != [] && Wire(h.response) != HostLink.Ack ==> RepliesWith(raw, h, HostLink.PayloadOf(Wire(h.response))))
  {
    var h := HandleFrame(raw, t);
    var c := Cmd(raw);
    if c == 0x40 {
      MifareShape(raw, t);
    } else if c == 0xA0 {
      FelicaShape(raw, t);
    } else if c == 0x4A {
      AnswerReplies(raw, CardReport(t.detect), [Detect]);
    } else if Simple(raw).Some? {
      AnswerReplies(raw, Simple(raw).value.payload, Simple(raw).value.calls);
    }
  }

  lemma MifareShape(raw: Buffer, t: Transceiver)
    requires Cmd(raw) == 0x40
    ensures var h := HandleFrame(raw, t);
      && (Wire(h.response) == HostLink.Ack <==> !Recognised(raw))
      && (Wire(h.response) != [] && Wire(h.response) != HostLink.Ack ==> RepliesWith(raw, h, HostLink.PayloadOf(Wire(h.response))))
  {
    var h := HandleFrame(raw, t);
    assert h == Mifare(raw, t);
    var sub := Data(raw, 1);
    if sub == 0x30 {
      match t.mifareRead(Data(raw, 2))
      case Some(data) => AnswerReplies(raw, [0x00] + data, [MifareRead(Data(raw, 2))]);
      case None => AnswerReplies(raw, [ReadFailed], [MifareRead(Data(raw, 2))]);
    } else if sub == 0x60 || sub == 0x61 {
      assert h == Answer(raw, HostLink.PayloadOf(Wire(h.response)), h.calls);
      AnswerReplies(raw, HostLink.PayloadOf(Wire(h.response)), h.calls);
    }
  }

  lemma FelicaShape(raw: Buffer, t: Transceiver)
    requires Cmd(raw) == 0xA0
    ensures var h := HandleFrame(raw, t);
      && Wire(h.response) != HostLink.Ack
      && (Wire(h.response) != [] ==> RepliesWith(raw, h, HostLink.PayloadOf(Wire(h.response))))
  {
    var h := HandleFrame(raw, t);
    assert h == Felica(raw, t);
    if Wire(h.response) != [] {
      var raw' := raw[9 := (Len(raw) as int - 2) % 0x100];
      var r := ReadWithoutEncryption(raw', t);
      assert h == r;
      assert Cmd(raw') == Cmd(raw);
      assert r == Answer(raw', HostLink.PayloadOf(Wire(r.response)), r.calls);
      AnswerReplies(raw', HostLink.PayloadOf(Wire(r.response)), r.calls);
    }
  }

  /** An answer is one information frame, neither empty nor the ACK. */
  lemma AnswerReplies(raw: Buffer, payload: seq<uint8>, calls: seq<DriverCall>)
    requires |payload| <= HostLink.MaxPayload
    ensures var h := Answer(raw, payload, calls);
      && RepliesWith(raw, h, payload) && HostLink.PayloadOf(Wire(h.response)) == payload
      && Wire(h.response) != [] && Wire(h.response) != HostLink.Ack
  {
  }

  /** The requests answered with a fixed payload, and the driver calls each
      makes; none of them touches the request buffer. */
  lemma FixedReplies(raw: Buffer, t: Transceiver)
    requires Cmd(raw) in {0x18, 0x12, 0x0E, 0x08, 0x06, 0x32, 0x0C, 0x44, 0x52, 0x54}
    ensures var h := HandleFrame(raw, t);
      && h.request == raw
      && (Cmd(raw) in {0x18, 0x12, 0x0E, 0x32} ==> RepliesWith(raw, h, []))
      && (Cmd(raw) in {0x08, 0x54} ==> RepliesWith(raw, h, [0x00]))
      && (Cmd(raw) in {0x44, 0x52} ==> RepliesWith(raw, h, [0x01, 0x00]))
      && (Cmd(raw) == 0x0C ==> RepliesWith(raw, h, [0x00, 0x06, 0x00]))
      && (Cmd(raw) == 0x06 && Data(raw, 1) == 0x1C ==> RepliesWith(raw, h, CapabilityReply))
      && (Cmd(raw) == 0x06 && Data(raw, 1) != 0x1C ==> RepliesWith(raw, h, FirmwareReply))
      && (Cmd(raw) == 0x08 ==> h.calls == [RfField(false)])
      && (Cmd(raw) == 0x32 ==> h.calls == [RfField(!(Data(raw, 0) == 0x01 && Data(raw, 1) == 0x00))])
      && (Cmd(raw) == 0x44 ==> h.calls == [Deselect])
      && (Cmd(raw) == 0x54 ==> h.calls == [Select])
      && (Cmd(raw) in {0x18, 0x12, 0x0E, 0x06, 0x0C, 0x52} ==> h.calls == [])
  {
    if Cmd(raw) == 0x32 {
      assert raw[7..9] == [0x01, 0x00] <==> Data(raw, 0) == 0x01 && Data(raw, 1) == 0x00;
    }
  }

  /** Opcode 0x4A: one driver poll, and a report the host decodes back to the
      card found: `00 00 00` for none, 10 bytes `01 01 00 04 08 04 uid[4]` for a
      Mifare card, 22 bytes `01 01 14 01 IDm[8] PMm[8] code[2]` for FeliCa. */
  lemma PollReplies(raw: Buffer, t: Transceiver)
    requires Cmd(raw) == 0x4A
    ensures var h := HandleFrame(raw, t);
      && h.request == raw && h.calls == [Detect]
      && DecodeReport(HostLink.PayloadOf(Wire(h.response))) == Some(t.detect)
      && match t.detect
         case NoCard => RepliesWith(raw, h, [0x00, 0x00, 0x00])
         case MifareCard(uid) => RepliesWith(raw, h, [0x01, 0x01, 0x00, 0x04, 0x08, 0x04] + uid)
         case FelicaCard(idm, pmm, code) => RepliesWith(raw, h, [0x01, 0x01, 0x14, 0x01] + idm + pmm + code)
  {
  }

  /** Opcode 0x40, sub-opcode data[1]: 0x60 / 0x61 authenticate with key
      index 0 / 1, block data[2], key data[3..9] and UID data[9..13], replying
      00 on success and 01 on failure; 0x30 reads block data[2], replying 00
      and the 16 bytes or 14 on failure; anything else gets the bare ACK. */
  lemma MifareReplies(raw: Buffer, t: Transceiver)
    requires Cmd(raw) == 0x40
    ensures var h := HandleFrame(raw, t);
      var sub := Data(raw, 1);
      var block := Data(raw, 2);
      var key := raw[7 + 3 .. 7 + 9];
      var uid: Uid := raw[7 + 9 .. 7 + 13];
      && h.request == raw
      && (sub == 0x60 ==> h.calls == [MifareAuth(uid, block, 0, key)]
                          && RepliesWith(raw, h, if t.mifareAuth(uid, block, 0, key) then [0x00] else [0x01]))
      && (sub == 0x61 ==> h.calls == [MifareAuth(uid, block, 1, key)]
                          && RepliesWith(raw, h, if t.mifareAuth(uid, block, 1, key) then [0x00] else [0x01]))
      && (sub == 0x30 ==> h.calls == [MifareRead(block)]
                          && match t.mifareRead(block)
                             case Some(data) => RepliesWith(raw, h, [0x00] + data)
                             case None => RepliesWith(raw, h, [0x14]))
      && (sub !in {0x60, 0x61, 0x30} ==> Wire(h.response) == HostLink.Ack && h.calls == [])
  {
    assert HandleFrame(raw, t) == Mifare(raw, t);
  }

  /** Opcode 0xA0: a reply is sent exactly when data[3] is 0x06 and LEN is not
      2.  Whenever data[3] is 0x06, data[2] is overwritten with LEN - 2 in 8
      bits; otherwise the request buffer is untouched and the driver is not
      called. */
  lemma FelicaGuard(raw: Buffer, t: Transceiver)
    requires Cmd(raw) == 0xA0
    ensures var h := HandleFrame(raw, t);
      && (Wire(h.response) != [] <==> Data(raw, 3) == 0x06 && Len(raw) != 2)
      && Wire(h.response) != HostLink.Ack
      && (Data(raw, 3) == 0x06 ==> h.request == raw[7 + 2 := (Len(raw) as int - 2) % 0x100])
      && (Wire(h.response) == [] ==> h.calls == [])
      && (Data(raw, 3) != 0x06 ==> h.request == raw)
  {
    assert HandleFrame(raw, t) == Felica(raw, t);
    assert HostLink.Ack != [];
  }

  /** The read-without-encryption reply: n = min(data[15], 4) blocks, payload
      `00, 13 + 16n, 07, IDm = data[4..12], 00 00, n` and then, for each block
      i, the slot the driver filled when asked for the little-endian service
      code data[13..15] and the big-endian block code data[16+2i..18+2i]. */
  lemma FelicaReadReply(raw: Buffer, t: Transceiver)
    requires Cmd(raw) == 0xA0 && Data(raw, 3) == 0x06 && Len(raw) != 2
    ensures RepliesWith(raw, HandleFrame(raw, t), HostLink.PayloadOf(Wire(HandleFrame(raw, t).response)))
    ensures var p := HostLink.PayloadOf(Wire(HandleFrame(raw, t).response));
      var n := if Data(raw, 15) > 4 then 4 else Data(raw, 15);
      && |p| == 14 + 16 * n
      && p[0] == 0x00 && p[1] == 13 + 16 * n && p[2] == 0x07
      && p[3..11] == raw[7 + 4 .. 7 + 12]
      && p[11] == 0x00 && p[12] == 0x00 && p[13] == n
  {
    FelicaDispatch(raw, t);
    GuardedRead(raw, t);
  }

  /** The reply of the read the guard leads to, in terms of the request as
      received. */
  lemma GuardedRead(raw: Buffer, t: Transceiver)
    requires Cmd(raw) == 0xA0
    ensures var h := ReadWithoutEncryption(raw[9 := (Len(raw) as int - 2) % 0x100], t);
      var p := HostLink.PayloadOf(Wire(h.response));
      var n := if Data(raw, 15) > 4 then 4 else Data(raw, 15);
      && RepliesWith(raw, h, p)
      && |p| == 14 + 16 * n
      && p[0] == 0x00 && p[1] == 13 + 16 * n && p[2] == 0x07
      && p[3..11] == raw[7 + 4 .. 7 + 12]
      && p[11] == 0x00 && p[12] == 0x00 && p[13] == n
  {
    var raw' := raw[9 := (Len(raw) as int - 2) % 0x100];
    ReadAnswer(raw', t);
    ReadLayout(raw', t);
    assert Cmd(raw') == Cmd(raw);
    assert BlockCount(raw') == BlockCount(raw);
    assert raw'[11..19] == raw[11..19];
  }

  /** A served FeliCa request is read with data[2] overwritten. */
  lemma FelicaDispatch(raw: Buffer, t: Transceiver)
    requires Cmd(raw) == 0xA0 && Data(raw, 3) == 0x06 && Len(raw) != 2
    ensures HandleFrame(raw, t) == ReadWithoutEncryption(raw[9 := (Len(raw) as int - 2) % 0x100], t)
  {
    assert HandleFrame(raw, t) == Felica(raw, t);
  }

  /** The blocks of that reply: for each block i < n, the driver is asked for
      the little-endian service code data[13..15] and the big-endian block code
      data[16+2i..18+2i], in order, and the slot it fills is copied into the
      reply. */
  lemma FelicaReadBlocks(raw: Buffer, t: Transceiver)
    requires Cmd(raw) == 0xA0 && Data(raw, 3) == 0x06 && Len(raw) != 2
    ensures var h := HandleFrame(raw, t);
      var p := HostLink.PayloadOf(Wire(h.response));
      var n := if Data(raw, 15) > 4 then 4 else Data(raw, 15);
      var service := Data(raw, 13) + Data(raw, 14) * 0x100;
      && |h.calls| == n
      && |p| == 14 + 16 * n
      && (forall i :: 0 <= i < n ==>
            h.calls[i] == FelicaRead(service, Data(raw, 16 + 2 * i) * 0x100 + Data(raw, 17 + 2 * i)))
      && (forall i :: 0 <= i < n ==>
            p[14 + 16 * i .. 30 + 16 * i] == t.felicaRead(i, service, Data(raw, 16 + 2 * i) * 0x100 + Data(raw, 17 + 2 * i)))
  {
    var raw' := raw[9 := (Len(raw) as int - 2) % 0x100];
    FelicaDispatch(raw, t);
    ReadAnswer(raw', t);
    assert BlockCount(raw') == BlockCount(raw);
    CallsOfRequest(raw, t);
    SlotsOfRequest(raw, t);
  }

  /** The driver calls of the handler the guard leads to. */
  lemma CallsOfRequest(raw: Buffer, t: Transceiver)
    ensures var raw' := raw[9 := (Len(raw) as int - 2) % 0x100];
      var calls := ReadBlocks(raw', t, BlockCount(raw')).calls;
      var n := if Data(raw, 15) > 4 then 4 else Data(raw, 15);
      var service := Data(raw, 13) + Data(raw, 14) * 0x100;
      && |calls| == n
      && (forall i :: 0 <= i < n ==>
            calls[i] == FelicaRead(service, Data(raw, 16 + 2 * i) * 0x100 + Data(raw, 17 + 2 * i)))
  {
    var raw' := raw[9 := (Len(raw) as int - 2) % 0x100];
    assert BlockCount(raw') == BlockCount(raw);
    var calls := ReadBlocks(raw', t, BlockCount(raw')).calls;
    var service := Data(raw, 13) + Data(raw, 14) * 0x100;
    assert ServiceCode(raw') == service;
    forall i | 0 <= i < BlockCount(raw)
      ensures calls[i] == FelicaRead(service, Data(raw, 16 + 2 * i) * 0x100 + Data(raw, 17 + 2 * i))
    {
      assert calls[i] == FelicaRead(ServiceCode(raw'), BlockCode(raw', i));
      assert BlockCode(raw', i) == Data(raw, 16 + 2 * i) * 0x100 + Data(raw, 17 + 2 * i);
    }
  }

  /** The block slots of the reply of the handler the guard leads to. */
  lemma SlotsOfRequest(raw: Buffer, t: Transceiver)
    ensures var p := ReadPayload(raw[9 := (Len(raw) as int - 2) % 0x100], t);
      var n := if Data(raw, 15) > 4 then 4 else Data(raw, 15);
      var service := Data(raw, 13) + Data(raw, 14) * 0x100;
      && |p| == 14 + 16 * n
      && (forall i :: 0 <= i < n ==>
            p[14 + 16 * i .. 30 + 16 * i] == t.felicaRead(i, service, Data(raw, 16 + 2 * i) * 0x100 + Data(raw, 17 + 2 * i)))
  {
    var raw' := raw[9 := (Len(raw) as int - 2) % 0x100];
    var p := ReadPayload(raw', t);
    ReadSlots(raw', t);
    assert BlockCount(raw') == BlockCount(raw);
    forall i | 0 <= i < BlockCount(raw)
      ensures p[14 + 16 * i .. 30 + 16 * i]
              == t.felicaRead(i, Data(raw, 13) + Data(raw, 14) * 0x100, Data(raw, 16 + 2 * i) * 0x100 + Data(raw, 17 + 2 * i))
    {
      assert p[14 + 16 * i .. 30 + 16 * i] == Slot(raw', t, i);
      SlotOfRequest(raw, t, i);
    }
  }

  /** Overwriting data[2] leaves the service and block codes alone. */
  lemma SlotOfRequest(raw: Buffer, t: Transceiver, i: nat)
    requires i < 4
    ensures Slot(raw[9 := (Len(raw) as int - 2) % 0x100], t, i)
            == t.felicaRead(i, Data(raw, 13) + Data(raw, 14) * 0x100, Data(raw, 16 + 2 * i) * 0x100 + Data(raw, 17 + 2 * i))
  {
    var raw' := raw[9 := (Len(raw) as int - 2) % 0x100];
    assert ServiceCode(raw') == Data(raw, 13) + Data(raw, 14) * 0x100;
    assert BlockCode(raw', i) == Data(raw, 16 + 2 * i) * 0x100 + Data(raw, 17 + 2 * i);
  }

  /** The read-without-encryption reply is one frame carrying the payload,
      and its driver calls are the block reads. */
  lemma ReadAnswer(raw: Buffer, t: Transceiver)
    ensures var h := ReadWithoutEncryption(raw, t);
      && RepliesWith(raw, h, ReadPayload(raw, t))
      && HostLink.PayloadOf(Wire(h.response)) == ReadPayload(raw, t)
      && h.calls == ReadBlocks(raw, t, BlockCount(raw)).calls
  {
    AnswerReplies(raw, ReadPayload(raw, t), ReadBlocks(raw, t, BlockCount(raw)).calls);
  }

  /** The header of the read-without-encryption payload, decoded from the
      request fields. */
  lemma ReadLayout(raw: Buffer, t: Transceiver)
    ensures var n := BlockCount(raw);
      var p := ReadPayload(raw, t);
      && p[0] == 0x00 && p[1] == 13 + 16 * n && p[2] == 0x07
      && p[3..11] == raw[11..19]
      && p[11] == 0x00 && p[12] == 0x00 && p[13] == n
  {
    var p := ReadPayload(raw, t);
    assert p[3..11] == raw[11..19];
  }

  /** The slots of the read-without-encryption payload. */
  lemma ReadSlots(raw: Buffer, t: Transceiver)
    ensures var p := ReadPayload(raw, t);
      forall i :: 0 <= i < BlockCount(raw) ==> p[14 + 16 * i .. 30 + 16 * i] == Slot(raw, t, i)
  {
    var n := BlockCount(raw);
    var blocks := ReadBlocks(raw, t, n);
    var p := ReadPayload(raw, t);
    assert p[14..] == blocks.data;
    forall i | 0 <= i < n
      ensures p[14 + 16 * i .. 30 + 16 * i] == Slot(raw, t, i)
    {
      assert p[14 + 16 * i .. 30 + 16 * i] == p[14..][16 * i .. 16 * i + 16];
    }
  }
}
