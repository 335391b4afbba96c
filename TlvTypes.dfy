/** Wire constants, record types and the byte-swap macro of the HTLVC protocol
    (header H(1) | tag T(1) | length L(2, big-endian) | value V(L) | checksum C(2, big-endian)). */
module TlvTypes {

  import opened Wrappers

  type uint8 = x: int | 0 <= x < 0x100
  type uint16 = x: int | 0 <= x < 0x1_0000
  type uint32 = x: int | 0 <= x < 0x1_0000_0000

  const PROTOCOL_HEADER_CMD: uint8 := 0xAA
  const PROTOCOL_HEADER_RSP: uint8 := 0xBB
  const PROTOCOL_HEADER_REP: uint8 := 0xCC
  const PROTOCOL_TAG_NESTED: uint8 := 0xFF
  const MAX_PROTOCOL_CMD_DATA_LEN: nat := 128
  const PROTOCOL_RSP_OK: uint8 := 0
  const PROTOCOL_RSP_ERR: uint8 := 0xFF

  /** The three header bytes a frame may start with. */
  predicate IsHeader(b: int) {
    b == PROTOCOL_HEADER_CMD || b == PROTOCOL_HEADER_RSP || b == PROTOCOL_HEADER_REP
  }

  /** protocol_tlv_data_t: the length field is |val|, the value buffer holds at most 128 bytes. */
  datatype Tlv = Tlv(tag: uint8, val: seq<uint8>, transferMethod: uint8)

  /** A record whose value fits the 128-byte buffer of protocol_tlv_data_t. */
  type Record = r: Tlv | |r.val| <= MAX_PROTOCOL_CMD_DATA_LEN witness Tlv(0, [], 0)

  /** tag_handle_cb_t: given the command and the pre-initialised response record, the handler
      returns its status and the response record it filled in. */
  type Handler = (Record, Record) -> (int, Record)

  /** general_protocol_t: a 32-bit tag and a possibly NULL handler. */
  datatype Entry = Entry(tag: uint32, cb: Option<Handler>)

  /** PROTOCOL_BIG_ENDIAN_TO_LITTLE_ENDIAN32 */
  function ByteSwap32(x: bv32): bv32 {
    ((x >> 24) & 0x0000_00FF) | ((x >> 8) & 0x0000_FF00) | ((x << 8) & 0x00FF_0000) | ((x << 24) & 0xFF00_0000)
  }

  /** Byte k (0 = least significant) of a 32-bit word. */
  function ByteOf(x: bv32, k: nat): bv32
    requires k < 4
  {
    if k == 0 then x & 0xFF
    else if k == 1 then (x >> 8) & 0xFF
    else if k == 2 then (x >> 16) & 0xFF
    else (x >> 24) & 0xFF
  }

  lemma ByteSwapReversesBytes(x: bv32, k: nat)
    requires k < 4
    ensures ByteOf(ByteSwap32(x), k) == ByteOf(x, 3 - k)
  {
  }

  lemma ByteSwapInvolution(x: bv32)
    ensures ByteSwap32(ByteSwap32(x)) == x
  {
  }

  lemma HeaderConstantsDistinct()
    ensures PROTOCOL_HEADER_CMD != PROTOCOL_HEADER_RSP
    ensures PROTOCOL_HEADER_CMD != PROTOCOL_HEADER_REP
    ensures PROTOCOL_HEADER_RSP != PROTOCOL_HEADER_REP
    ensures !IsHeader(PROTOCOL_TAG_NESTED)
    ensures PROTOCOL_RSP_OK != PROTOCOL_RSP_ERR
  {
  }
}
