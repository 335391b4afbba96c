/** The additive checksum, the HTLVC/TLV frame builder and the inbound frame checks. */
module TlvCodec {

  import opened Wrappers
  import opened TlvTypes

  // ---------------------------------------------------------------- checksum

  /** A big-endian 16-bit field. */
  function BE16(hi: uint8, lo: uint8): uint16 {
    hi as int * 0x100 + lo as int
  }

  /** The plain (unbounded) sum of the bytes of s. */
  function Sum(s: seq<uint8>): nat {
    if s == [] then 0 else Sum(s[..|s| - 1]) + s[|s| - 1]
  }

  /** The 16-bit additive checksum: the sum of the bytes modulo 2^16. */
  function CheckSum(s: seq<uint8>): uint16 {
    Sum(s) % 0x1_0000
  }

  lemma {:induction false} SumAppend(s: seq<uint8>, t: seq<uint8>)
    ensures Sum(s + t) == Sum(s) + Sum(t)
    decreases |t|
  {
    if t != [] {
      var t' := t[..|t| - 1];
      assert (s + t)[..|s + t| - 1] == s + t';
      SumAppend(s, t');
    } else {
      assert s + t == s;
    }
  }

  /** The sum of the first i bytes adds byte i - 1 to the sum of the first i - 1. */
  lemma SumPrefixStep(s: seq<uint8>, i: nat)
    requires 0 < i <= |s|
    ensures Sum(s[..i]) == Sum(s[..i - 1]) + s[i - 1]
  {
    assert s[..i][..i - 1] == s[..i - 1];
  }

  /** verify_check_sum: a 16-bit accumulator that wraps, over buffer[0..bufferLength). */
  method VerifyCheckSum(buffer: seq<uint8>, bufferLength: uint16) returns (checksum: uint16)
    requires bufferLength <= |buffer|
    ensures checksum == CheckSum(buffer[..bufferLength])
    ensures bufferLength == 0 ==> checksum == 0
  {
    checksum := 0;
    var i: uint16 := 0;
    while i < bufferLength
      invariant i <= bufferLength
      invariant checksum == CheckSum(buffer[..i])
    {
      assert buffer[..i + 1][..i] == buffer[..i];
      checksum := (checksum + buffer[i]) % 0x1_0000;
      i := i + 1;
    }
  }

  // ---------------------------------------------------------------- frames

  /** The bytes written before the checksum: [head] tag, len>>8, len&0xFF, value. */
  function Prefix(head: Option<uint8>, tag: uint8, val: seq<uint8>): seq<uint8>
    requires |val| < 0x1_0000
  {
    (if head.Some? then [head.value] else []) + [tag, |val| / 0x100, |val| % 0x100] + val
  }

  /** The bytes protocol_htlvc_packet_create writes, with verify_check_sum as the checksum callback
      when withChecksum holds and a NULL callback otherwise. */
  function Frame(head: Option<uint8>, tag: uint8, val: seq<uint8>, withChecksum: bool): seq<uint8>
    requires |val| < 0x1_0000
  {
    var p := Prefix(head, tag, val);
    if withChecksum then p + [CheckSum(p) / 0x100, CheckSum(p) % 0x100] else p
  }

  /** packet_length as computed by protocol_htlvc_packet_create: the value, the header byte if
      any, 2 checksum bytes if any, and the tag byte (the 2 length bytes are not counted). */
  function PacketLength(head: Option<uint8>, valLen: nat, withChecksum: bool): nat {
    valLen + (if head.Some? then 1 else 0) + (if withChecksum then 2 else 0) + 1
  }

  lemma FrameLayout(head: Option<uint8>, tag: uint8, val: seq<uint8>, withChecksum: bool)
    requires |val| < 0x1_0000
    ensures var f := Frame(head, tag, val, withChecksum);
      var h := if head.Some? then 1 else 0;
      && |f| == h + 3 + |val| + (if withChecksum then 2 else 0)
      && (head.Some? ==> f[0] == head.value)
      && f[h] == tag && BE16(f[h + 1], f[h + 2]) == |val|
      && f[h + 3..h + 3 + |val|] == val
      && (withChecksum ==> BE16(f[|f| - 2], f[|f| - 1]) == CheckSum(f[..|f| - 2]))
  {
    var f := Frame(head, tag, val, withChecksum);
    var p := Prefix(head, tag, val);
    assert f[..|p|] == p;
  }

  /** packet_length equals the bytes written before the checksum when a checksum is written;
      without one it is 2 short of the bytes written, which hal_malloc's 4 spare bytes absorb. */
  lemma PacketLengthAccounting(head: Option<uint8>, tag: uint8, val: seq<uint8>, withChecksum: bool)
    requires |val| < 0x1_0000
    ensures withChecksum ==> PacketLength(head, |val|, true) == |Prefix(head, tag, val)|
    ensures !withChecksum ==> PacketLength(head, |val|, false) + 2 == |Frame(head, tag, val, false)|
    ensures |Frame(head, tag, val, withChecksum)| <= PacketLength(head, |val|, withChecksum) + 4
  {
  }

  /** protocol_general_data_t */
  class GeneralData {
    var data: array?<uint8>
    var len: nat

    constructor Empty()
      ensures data == null && len == 0
    {
      data := null;
      len := 0;
    }
  }

  /** protocol_general_data_create: copies dataLen bytes into a fresh buffer. allocFails stands for
      the allocator running out of memory, in which case NULL is returned. */
  method GeneralDataCreate(data: Option<seq<uint8>>, dataLen: uint16, allocFails: bool) returns (p: GeneralData?)
    requires data.Some? ==> dataLen <= |data.value|
    ensures p == null <==> allocFails
    ensures p != null ==> fresh(p)
    ensures p != null && (dataLen == 0 || data.None?) ==> p.data == null && p.len == 0
    ensures p != null && dataLen != 0 && data.Some? ==>
      && p.data != null && fresh(p.data) && p.data.Length == dataLen + 4
      && p.len == dataLen && p.data[..p.len] == data.value[..dataLen]
  {
    if allocFails {
      return null;
    }
    p := new GeneralData.Empty();
    if dataLen == 0 || data.None? {
      return p;
    }
    var buf := new uint8[dataLen + 4];
    forall k | 0 <= k < dataLen {
      buf[k] := data.value[k];
    }
    p.data := buf;
    p.len := dataLen;
  }

  /** The first part of protocol_htlvc_packet_create: the header byte if any, the tag, the
      big-endian length and the value, written from index 0 with a moving index that is
      returned. */
  method WritePrefix(data: array<uint8>, head: Option<uint8>, tag: uint8, val: seq<uint8>)
    returns (packetIndex: nat)
    requires |val| < 0x1_0000 && |Prefix(head, tag, val)| <= data.Length
    modifies data
    ensures packetIndex == |Prefix(head, tag, val)|
    ensures data[..packetIndex] == Prefix(head, tag, val)
  {
    packetIndex := 0;
    if head.Some? {
      data[packetIndex] := head.value;
      packetIndex := packetIndex + 1;
    }
    data[packetIndex] := tag;
    data[packetIndex + 1] := |val| / 0x100;
    data[packetIndex + 2] := |val| % 0x100;
    packetIndex := packetIndex + 3;
    forall k | 0 <= k < |val| {
      data[packetIndex + k] := val[k];
    }
    packetIndex := packetIndex + |val|;
    ghost var p := Prefix(head, tag, val);
    assert forall k :: 0 <= k < packetIndex ==> data[k] == p[k];
  }

  /** protocol_htlvc_packet_create: a fresh buffer of packet_length + 4 bytes filled with a moving
      index; its first len bytes are the frame. */
  method PacketCreate(head: Option<uint8>, tag: uint8, valLen: uint16, val: seq<uint8>, withChecksum: bool)
    returns (packet: GeneralData)
    requires |val| == valLen
    requires valLen + 6 < 0x1_0000
    ensures fresh(packet) && packet.data != null && fresh(packet.data)
    ensures packet.data.Length == PacketLength(head, valLen, withChecksum) + 4
    ensures packet.len <= packet.data.Length
    ensures packet.data[..packet.len] == Frame(head, tag, val, withChecksum)
  {
    var packetLength: uint16 := valLen;
    packet := GeneralDataCreate(None, 0, false);
    if head.Some? {
      packetLength := packetLength + 1;
    }
    if withChecksum {
      packetLength := packetLength + 2;
    }
    packetLength := packetLength + 1;

    var data := new uint8[packetLength + 4];
    var packetIndex := WritePrefix(data, head, tag, val);
    ghost var p := Prefix(head, tag, val);

    if withChecksum {
      var checksum := VerifyCheckSum(data[..], packetLength);
      assert data[..][..packetLength] == p;
      data[packetIndex] := checksum / 0x100;
      data[packetIndex + 1] := checksum % 0x100;
      assert forall k :: 0 <= k < packetIndex ==> data[k] == p[k];
      assert data[..packetIndex + 2] == p + [checksum / 0x100, checksum % 0x100];
      packetIndex := packetIndex + 2;
    }
    packet.data := data;
    packet.len := packetIndex;
  }

  // ---------------------------------------------------------------- inbound checks

  datatype Rejection = Truncated | BadHeader | LengthOverflow | ChecksumMismatch | ValueTooLarge

  datatype Decoded = Decoded(tag: uint8, val: seq<uint8>)

  datatype DecodeResult = Accepted(frame: Decoded) | Rejected(reason: Rejection)

  /** The big-endian length field at bytes 2 and 3. */
  function DeclaredLength(buffer: seq<uint8>): uint16
    requires |buffer| >= 4
  {
    BE16(buffer[2], buffer[3])
  }

  /** The big-endian checksum field read at offset len + 4. */
  function ReceivedCheckSum(buffer: seq<uint8>): uint16
    requires |buffer| >= 4 && DeclaredLength(buffer) + 6 <= |buffer|
  {
    var len := DeclaredLength(buffer);
    BE16(buffer[len + 4], buffer[len + 5])
  }

  /** The checks of general_htlvc_protocol_process as written, in their order: a frame that passes
      all of them has its declared length of value bytes copied, whatever that length is. */
  function ChecksAsWritten(buffer: seq<uint8>): (r: DecodeResult)
    requires |buffer| < 0x1_0000
    ensures r.Accepted? ==> |buffer| >= 6 && |r.frame.val| + 6 <= |buffer| && r.frame.val == buffer[4..4 + |r.frame.val|]
    ensures r.Accepted? <==> |buffer| >= 6 && IsHeader(buffer[0]) && DeclaredLength(buffer) + 6 <= |buffer|
                             && CheckSum(buffer[..|buffer| - 2]) == ReceivedCheckSum(buffer)
    ensures r.Accepted? ==> r.frame.tag == buffer[1] && |r.frame.val| == DeclaredLength(buffer)
    ensures r.Rejected? ==> r.reason != ValueTooLarge
  {
    if |buffer| < 6 then Rejected(Truncated)
    else if !IsHeader(buffer[0]) then Rejected(BadHeader)
    else if DeclaredLength(buffer) + 6 > |buffer| then Rejected(LengthOverflow)
    else if CheckSum(buffer[..|buffer| - 2]) != ReceivedCheckSum(buffer) then Rejected(ChecksumMismatch)
    else Accepted(Decoded(buffer[1], buffer[4..4 + DeclaredLength(buffer)]))
  }

  /** The checks of general_htlvc_protocol_process with the missing bound on the value length
      added: a value longer than the 128-byte record buffer is rejected instead of copied. */
  function Validate(buffer: seq<uint8>): (r: DecodeResult)
    requires |buffer| < 0x1_0000
    ensures r.Accepted? ==> |r.frame.val| <= MAX_PROTOCOL_CMD_DATA_LEN && ChecksAsWritten(buffer) == r
    ensures r.Rejected? ==> ChecksAsWritten(buffer).Rejected? || |ChecksAsWritten(buffer).frame.val| > MAX_PROTOCOL_CMD_DATA_LEN
  {
    match ChecksAsWritten(buffer)
    case Accepted(d) => if |d.val| > MAX_PROTOCOL_CMD_DATA_LEN then Rejected(ValueTooLarge) else Accepted(d)
    case Rejected(e) => Rejected(e)
  }

  /** When the buffer is exactly one frame long, the checksum check compares the sum of every byte
      before the checksum field with that field. */
  lemma ChecksumCoverage(buffer: seq<uint8>)
    requires |buffer| < 0x1_0000 && |buffer| >= 6
    requires DeclaredLength(buffer) + 6 == |buffer|
    ensures ReceivedCheckSum(buffer) == BE16(buffer[|buffer| - 2], buffer[|buffer| - 1])
    ensures buffer[..|buffer| - 2] == buffer[..DeclaredLength(buffer) + 4]
  {
  }

  /** The plain sum of s is at most 255 per byte. */
  lemma {:induction false} SumBound(s: seq<uint8>)
    ensures Sum(s) <= 0xFF * |s|
  {
    if s != [] {
      SumBound(s[..|s| - 1]);
    }
  }

  /** The prefix of a frame with a header and a value of at most 128 bytes sums to a positive
      number far below 2^16, so its checksum is that sum. */
  lemma PrefixSumSmall(head: uint8, tag: uint8, val: seq<uint8>)
    requires IsHeader(head) && |val| <= MAX_PROTOCOL_CMD_DATA_LEN
    ensures 0 < Sum(Prefix(Some(head), tag, val)) <= 0xFF * (MAX_PROTOCOL_CMD_DATA_LEN + 4)
  {
    var p := Prefix(Some(head), tag, val);
    SumBound(p);
    assert p == [head] + p[1..];
    SumAppend([head], p[1..]);
    assert [head][..0] == [];
  }

  /** The bytes of a frame with a checksum sum to the prefix's sum plus the two checksum bytes. */
  lemma FrameSum(p: seq<uint8>, hi: uint8, lo: uint8)
    ensures Sum(p + [hi, lo]) == Sum(p) + hi + lo
  {
    SumAppend(p, [hi, lo]);
    SumAppend([hi], [lo]);
    assert [hi, lo] == [hi] + [lo];
    assert [hi][..0] == [] && [lo][..0] == [];
  }

  /** The checksum is computed over buffer_len - 2 bytes but read at offset len + 4, so the two
      cover the same bytes only when the buffer is exactly one frame long: a built frame that
      arrives followed by two more bytes is always dropped as a checksum mismatch. */
  lemma PaddedFrameRejected(head: uint8, tag: uint8, val: seq<uint8>, pad: seq<uint8>)
    requires IsHeader(head)
    requires |val| <= MAX_PROTOCOL_CMD_DATA_LEN && |pad| == 2
    ensures ChecksAsWritten(Frame(Some(head), tag, val, true) + pad) == Rejected(ChecksumMismatch)
  {
    var p := Prefix(Some(head), tag, val);
    var c := CheckSum(p);
    var f := Frame(Some(head), tag, val, true);
    var g := f + pad;
    assert f == p + [c / 0x100, c % 0x100];
    assert g[0] == head && g[2] == |val| / 0x100 && g[3] == |val| % 0x100;
    assert DeclaredLength(g) == |val|;
    assert g[|val| + 4] == c / 0x100 && g[|val| + 5] == c % 0x100;
    assert ReceivedCheckSum(g) == c;
    assert g[..|g| - 2] == f;
    PrefixSumSmall(head, tag, val);
    FrameSum(p, c / 0x100, c % 0x100);
    assert c == Sum(p) && c > 0;
    assert CheckSum(f) == Sum(p) + c / 0x100 + c % 0x100;
  }

  /** One trailing byte is not always caught: the built frame AA 00 00 00 00 AA (empty value,
      checksum 00 AA) followed by 55 passes every check, because the field read at offset 4 is
      the old checksum and the five bytes summed before the last two add up to the same 0xAA. */
  lemma OneTrailingByteAccepted()
    ensures Frame(Some(PROTOCOL_HEADER_CMD), 0, [], true) == [0xAA, 0, 0, 0, 0, 0xAA]
    ensures ChecksAsWritten([0xAA, 0, 0, 0, 0, 0xAA, 0x55]) == Accepted(Decoded(0, []))
  {
    var p: seq<uint8> := [0xAA, 0, 0, 0];
    SumPrefixStep(p, 1); SumPrefixStep(p, 2); SumPrefixStep(p, 3); SumPrefixStep(p, 4);
    assert p[..0] == [] && p[..4] == p;
    assert CheckSum(p) == 0xAA;
    assert Prefix(Some(PROTOCOL_HEADER_CMD), 0, []) == p;
    var q: seq<uint8> := [0xAA, 0, 0, 0, 0];
    assert q == p + [0];
    SumAppend(p, [0]);
    assert [0 as uint8][..0] == [];
    var g: seq<uint8> := [0xAA, 0, 0, 0, 0, 0xAA, 0x55];
    assert g[..|g| - 2] == q;
    assert CheckSum(q) == 0xAA;
  }

  /** Every frame the builder makes with a header and a checksum passes the checks as written,
      which give back its tag and value. */
  lemma {:induction false} ChecksRoundTrip(head: uint8, tag: uint8, val: seq<uint8>)
    requires IsHeader(head)
    requires |val| + 6 < 0x1_0000
    ensures ChecksAsWritten(Frame(Some(head), tag, val, true)) == Accepted(Decoded(tag, val))
  {
    var f := Frame(Some(head), tag, val, true);
    var p := Prefix(Some(head), tag, val);
    assert |f| == |val| + 6;
    assert DeclaredLength(f) == |val|;
    assert f[..|f| - 2] == p;
    assert f[4..4 + |val|] == val;
  }

  /** Round trip: build with a valid header and the checksum, then the checks give back the tag
      and the value, for every value that fits the 128-byte record buffer. */
  lemma RoundTrip(head: uint8, tag: uint8, val: seq<uint8>)
    requires IsHeader(head)
    requires |val| <= MAX_PROTOCOL_CMD_DATA_LEN
    ensures Validate(Frame(Some(head), tag, val, true)) == Accepted(Decoded(tag, val))
  {
    ChecksRoundTrip(head, tag, val);
  }

  /** A well-formed frame whose value is longer than 128 bytes is rejected as too large. */
  lemma OversizedValueRejected(head: uint8, tag: uint8, val: seq<uint8>)
    requires IsHeader(head)
    requires MAX_PROTOCOL_CMD_DATA_LEN < |val| && |val| + 6 < 0x1_0000
    ensures Validate(Frame(Some(head), tag, val, true)) == Rejected(ValueTooLarge)
  {
    ChecksRoundTrip(head, tag, val);
  }

  /** The checks as written let a 129-byte value through to the copy into the 128-byte buffer:
      the command frame AA 01 00 81, 129 zero bytes, 01 2C passes every check. */
  lemma ChecksAcceptOversizedValue()
    ensures var f := Frame(Some(PROTOCOL_HEADER_CMD), 1, seq(129, _ => 0), true);
      && |f| == 135 && f[..4] == [0xAA, 0x01, 0x00, 0x81]
      && ChecksAsWritten(f).Accepted? && |ChecksAsWritten(f).frame.val| == 129
  {
    ChecksRoundTrip(PROTOCOL_HEADER_CMD, 1, seq(129, _ => 0));
  }

  /** Replacing one byte changes the plain sum by the difference of the two bytes. */
  lemma {:induction false} SumUpdate(p: seq<uint8>, i: nat, b: uint8)
    requires i < |p|
    ensures Sum(p[i := b]) + p[i] == Sum(p) + b
  {
    var q := p[i := b];
    assert p == p[..i] + ([p[i]] + p[i + 1..]);
    assert q == q[..i] + ([q[i]] + q[i + 1..]);
    assert q[..i] == p[..i] && q[i + 1..] == p[i + 1..];
    SumAppend(p[..i], [p[i]] + p[i + 1..]);
    SumAppend([p[i]], p[i + 1..]);
    SumAppend(q[..i], [q[i]] + q[i + 1..]);
    SumAppend([q[i]], q[i + 1..]);
    assert [p[i]][..0] == [] && [q[i]][..0] == [];
  }

  /** Two different sums less than 256 apart leave different residues modulo 2^16. */
  lemma NearSumsDiffer(x: nat, y: nat)
    requires x != y && -0x100 < x - y < 0x100
    ensures x % 0x1_0000 != y % 0x1_0000
  {
  }

  /** Changing one byte of the tag or value of a built frame makes the checksum check fail. */
  lemma ChecksumDetectsByteChange(head: uint8, tag: uint8, val: seq<uint8>, i: nat, b: uint8)
    requires IsHeader(head)
    requires |val| <= MAX_PROTOCOL_CMD_DATA_LEN
    requires i == 1 || 4 <= i < |val| + 4
    requires b != Frame(Some(head), tag, val, true)[i]
    ensures ChecksAsWritten(Frame(Some(head), tag, val, true)[i := b]) == Rejected(ChecksumMismatch)
  {
    var f := Frame(Some(head), tag, val, true);
    var p := Prefix(Some(head), tag, val);
    assert f == p + [CheckSum(p) / 0x100, CheckSum(p) % 0x100];
    var g := f[i := b];
    var q := p[i := b];
    assert g == q + [CheckSum(p) / 0x100, CheckSum(p) % 0x100];
    assert g[0] == head && g[2] == |val| / 0x100 && g[3] == |val| % 0x100;
    assert DeclaredLength(g) == |val|;
    assert g[..|g| - 2] == q;
    assert ReceivedCheckSum(g) == CheckSum(p);
    SumUpdate(p, i, b);
    NearSumsDiffer(Sum(q), Sum(p));
  }
}
