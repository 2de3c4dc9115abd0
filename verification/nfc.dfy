/** The contactless transceiver as the protocol engine sees it.  The real
    driver talks to hardware; here it is an oracle: a record of the answers
    the driver gives during one call of the engine, plus the trace of calls
    the engine makes on it. */
module Nfc {
  import opened Bytes
  import opened Optional

  /** One 16-byte card block. */
  type Block = s: seq<uint8> | |s| == 16 witness seq(16, _ => 0)
  /** A 4-byte Mifare UID. */
  type Uid = s: seq<uint8> | |s| == 4 witness [0, 0, 0, 0]
  /** An 8-byte FeliCa IDm or PMm. */
  type FelicaId = s: seq<uint8> | |s| == 8 witness seq(8, _ => 0)
  /** A 2-byte FeliCa system code. */
  type SystemCode = s: seq<uint8> | |s| == 2 witness [0, 0]

  /** Result of polling for a card of either family. */
  datatype Detected =
    | NoCard
    | MifareCard(uid: Uid)
    | FelicaCard(idm: FelicaId, pmm: FelicaId, systemCode: SystemCode)

  /** The driver's answers: what a poll finds, whether an authentication
      (uid, block, key index, key) succeeds, what a Mifare block read returns,
      and what a FeliCa (service, block) read leaves in reply slot `i`.  A
      failed FeliCa read leaves the slot's uninitialised bytes, so each slot
      is any block at all, even for two reads of the same codes. */
  datatype Transceiver = Transceiver(
    detect: Detected,
    mifareAuth: (Uid, uint8, uint8, seq<uint8>) -> bool,
    mifareRead: uint8 -> Option<Block>,
    felicaRead: (nat, uint16, uint16) -> Block)

  /** A call the engine makes on the driver, in the order it makes them. */
  datatype DriverCall =
    | RfField(on: bool)
    | Detect
    | MifareAuth(uid: Uid, block: uint8, keyIndex: uint8, key: seq<uint8>)
    | MifareRead(block: uint8)
    | FelicaRead(service: uint16, blockCode: uint16)
    | Select
    | Deselect
}
