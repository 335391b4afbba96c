/** The protocol engine's registration state and its three entry points: register, process and
    report. The send/report callback is foreign; every call to it is recorded in a ghost log. */
module TlvEngine {

  import opened Wrappers
  import opened TlvTypes
  import opened TlvCodec
  import opened TlvDispatch

  /** The identity of a report_method_cb_t. */
  type SendCallback = nat

  /** One call of the send callback: the frame bytes and the transfer method it was given. */
  datatype Sent = Sent(callback: SendCallback, frame: seq<uint8>, transferMethod: uint8)

  /** Which way a call of general_htlvc_protocol_process went. */
  datatype ProcessOutcome = NotRegistered | Dropped(reason: Rejection) | Responded(status: int)

  datatype Step = Step(outcome: ProcessOutcome, sends: seq<Sent>)

  /** general_htlvc_protocol_process as a value: the path taken and the calls of the send callback. */
  function ProcessSpec(registered: bool, table: seq<Entry>, callback: Option<SendCallback>,
                       buffer: seq<uint8>, transferMethod: uint8): Step
    requires |buffer| < 0x1_0000
  {
    if !registered then Step(NotRegistered, [])
    else match Validate(buffer)
      case Rejected(e) => Step(Dropped(e), [])
      case Accepted(d) =>
        var h := TagHandle(table, Tlv(d.tag, d.val, transferMethod));
        var frame := Frame(Some(PROTOCOL_HEADER_RSP), h.rsp.tag, h.rsp.val, true);
        Step(Responded(h.status),
             if callback.Some? then [Sent(callback.value, frame, h.rsp.transferMethod)] else [])
  }

  /** The frame general_htlvc_protocol_report hands to the callback. */
  function ReportFrame(tag: uint8, val: seq<uint8>): seq<uint8>
    requires |val| <= MAX_PROTOCOL_CMD_DATA_LEN
  {
    Frame(Some(PROTOCOL_HEADER_REP), tag, val, true)
  }

  class Engine {
    /** g_htlvc_tabs[0..g_htlvc_tabs_size) */
    var table: seq<Entry>
    /** g_report_method_cb */
    var callback: Option<SendCallback>
    /** g_register_flag */
    var registered: bool
    /** The calls made to the send callback, oldest first. */
    ghost var sent: seq<Sent>

    /** The state before any registration: no table, no callback, flag clear. */
    constructor ()
      ensures table == [] && callback == None && !registered && sent == []
    {
      table := [];
      callback := None;
      registered := false;
      sent := [];
    }

    /** general_htlvc_protocol_register: fails with -1 when the table is NULL or holds the nested
        tag, leaving everything as it was; otherwise installs the table and the callback and sets the
        flag. A previous registration is not checked for and is overwritten. */
    method Register(tabs: Option<seq<Entry>>, cb: Option<SendCallback>) returns (r: int)
      requires tabs.Some? ==> |tabs.value| < 0x1_0000
      modifies this
      ensures r == -1 <==> tabs.None? || exists k :: 0 <= k < |tabs.value| && tabs.value[k].tag == PROTOCOL_TAG_NESTED as int
      ensures r == -1 || r == 0
      ensures r == -1 ==> table == old(table) && callback == old(callback) && registered == old(registered)
      ensures r == 0 ==> table == tabs.value && callback == cb && registered
      ensures sent == old(sent)
    {
      if tabs.None? {
        return -1;
      }
      var entries := tabs.value;
      var i := 0;
      while i < |entries|
        invariant i <= |entries|
        invariant forall k :: 0 <= k < i ==> entries[k].tag != PROTOCOL_TAG_NESTED as int
      {
        if entries[i].tag == PROTOCOL_TAG_NESTED as int {
          return -1;
        }
        i := i + 1;
      }
      table := entries;
      callback := cb;
      registered := true;
      return 0;
    }

    /** general_htlvc_protocol_process. Every frame that passes the checks gets a 0xBB response
        frame built from the response record and sent with that record's transfer method; a frame
        that fails a check, or any frame before registration, is dropped without a call. */
    method Process(buffer: seq<uint8>, transferMethod: uint8) returns (outcome: ProcessOutcome)
      requires |buffer| < 0x1_0000
      modifies this`sent
      ensures var step := ProcessSpec(registered, table, callback, buffer, transferMethod);
        outcome == step.outcome && sent == old(sent) + step.sends
    {
      if !registered {
        return NotRegistered;
      }
      var bufferLen := |buffer|;
      if bufferLen < 6 {
        assert Validate(buffer) == Rejected(Truncated);
        return Dropped(Truncated);
      }
      if !IsHeader(buffer[0]) {
        assert Validate(buffer) == Rejected(BadHeader);
        return Dropped(BadHeader);
      }
      var tag := buffer[1];
      var len := BE16(buffer[2], buffer[3]);
      if len + 6 > bufferLen {
        assert Validate(buffer) == Rejected(LengthOverflow);
        return Dropped(LengthOverflow);
      }
      var checksum := VerifyCheckSum(buffer, bufferLen - 2);
      var receivedChecksum := BE16(buffer[len + 4], buffer[len + 5]);
      if checksum != receivedChecksum {
        assert Validate(buffer) == Rejected(ChecksumMismatch);
        return Dropped(ChecksumMismatch);
      }
      if len > MAX_PROTOCOL_CMD_DATA_LEN {
        assert Validate(buffer) == Rejected(ValueTooLarge);
        return Dropped(ValueTooLarge);
      }
      var cmd := Tlv(tag, buffer[4..4 + len], transferMethod);
      assert Validate(buffer) == Accepted(Decoded(tag, cmd.val));
      var status, rsp := ProtocolTagHandle(table, cmd);
      var packet := PacketCreate(Some(PROTOCOL_HEADER_RSP), rsp.tag, |rsp.val|, rsp.val, true);
      if callback.Some? {
        sent := sent + [Sent(callback.value, packet.data[..packet.len], rsp.transferMethod)];
      }
      return Responded(status);
    }

    /** general_htlvc_protocol_report: -1 without a callback, -2 for a value over 128 bytes,
        otherwise one call of the callback with a 0xCC frame, and 0. */
    method Report(tag: uint8, len: uint16, val: seq<uint8>, transferMethod: uint8) returns (r: int)
      requires |val| == len
      modifies this`sent
      ensures r == (if callback.None? then -1 else if len > MAX_PROTOCOL_CMD_DATA_LEN then -2 else 0)
      ensures r != 0 ==> sent == old(sent)
      ensures r == 0 ==> sent == old(sent) + [Sent(callback.value, ReportFrame(tag, val), transferMethod)]
    {
      if callback.None? {
        return -1;
      }
      if len > MAX_PROTOCOL_CMD_DATA_LEN {
        return -2;
      }
      var reportTlv := Tlv(tag, val, 0);
      var packet := PacketCreate(Some(PROTOCOL_HEADER_REP), reportTlv.tag, len, reportTlv.val, true);
      sent := sent + [Sent(callback.value, packet.data[..packet.len], transferMethod)];
      return 0;
    }
  }

  /** Registering twice: the second valid table and callback replace the first, with result 0. */
  method RegisterTwice(first: seq<Entry>, second: seq<Entry>, cb1: SendCallback, cb2: SendCallback)
    returns (r2: int, installed: seq<Entry>, installedCallback: Option<SendCallback>)
    requires |first| < 0x1_0000 && |second| < 0x1_0000
    requires forall k :: 0 <= k < |first| ==> first[k].tag != PROTOCOL_TAG_NESTED as int
    requires forall k :: 0 <= k < |second| ==> second[k].tag != PROTOCOL_TAG_NESTED as int
    ensures r2 == 0 && installed == second && installedCallback == Some(cb2)
  {
    var engine := new Engine();
    var r1 := engine.Register(Some(first), Some(cb1));
    r2 := engine.Register(Some(second), Some(cb2));
    installed, installedCallback := engine.table, engine.callback;
  }

  // ---------------------------------------------------------------- properties of process

  /** Silent rejection: before registration, or when the buffer is short, the header unknown, the
      declared length too long for the buffer or the checksum wrong, nothing is sent. */
  lemma SilentRejection(registered: bool, table: seq<Entry>, callback: Option<SendCallback>,
                        buffer: seq<uint8>, transferMethod: uint8)
    requires |buffer| < 0x1_0000
    requires || !registered
             || |buffer| < 6
             || !IsHeader(buffer[0])
             || DeclaredLength(buffer) + 6 > |buffer|
             || CheckSum(buffer[..|buffer| - 2]) != ReceivedCheckSum(buffer)
    ensures ProcessSpec(registered, table, callback, buffer, transferMethod).sends == []
    ensures !ProcessSpec(registered, table, callback, buffer, transferMethod).outcome.Responded?
  {
  }

  /** A response is sent exactly when the engine is registered with a callback and the frame passes
      every check; there is then exactly one call, with a 0xBB frame that itself passes the checks
      and carries the response record's tag, value and transfer method. */
  lemma ResponseSentIffValid(registered: bool, table: seq<Entry>, callback: Option<SendCallback>,
                             buffer: seq<uint8>, transferMethod: uint8)
    requires |buffer| < 0x1_0000
    ensures var step := ProcessSpec(registered, table, callback, buffer, transferMethod);
      step.sends != [] <==> registered && callback.Some? && Validate(buffer).Accepted?
    ensures var step := ProcessSpec(registered, table, callback, buffer, transferMethod);
      registered && callback.Some? && Validate(buffer).Accepted? ==>
        var d := Validate(buffer).frame;
        var h := TagHandle(table, Tlv(d.tag, d.val, transferMethod));
        && step.outcome == Responded(h.status)
        && |step.sends| == 1
        && step.sends[0].callback == callback.value
        && step.sends[0].transferMethod == h.rsp.transferMethod
        && step.sends[0].frame[0] == PROTOCOL_HEADER_RSP
        && Validate(step.sends[0].frame) == Accepted(Decoded(h.rsp.tag, h.rsp.val))
  {
    if registered && Validate(buffer).Accepted? {
      var d := Validate(buffer).frame;
      var h := TagHandle(table, Tlv(d.tag, d.val, transferMethod));
      RoundTrip(PROTOCOL_HEADER_RSP, h.rsp.tag, h.rsp.val);
    }
  }

  /** An unserved tag still gets a response: a 0xBB frame with the command's tag, an empty value
      and transfer method 0, whatever transfer method the command arrived with. */
  lemma UnknownTagResponse(table: seq<Entry>, cb: SendCallback, buffer: seq<uint8>, transferMethod: uint8)
    requires |buffer| < 0x1_0000
    requires Validate(buffer).Accepted?
    requires Validate(buffer).frame.tag != PROTOCOL_TAG_NESTED
    requires forall k :: 0 <= k < |table| ==> !Serves(table[k], Validate(buffer).frame.tag)
    ensures ProcessSpec(true, table, Some(cb), buffer, transferMethod)
         == Step(Responded(0), [Sent(cb, Frame(Some(PROTOCOL_HEADER_RSP), Validate(buffer).frame.tag, [], true), 0)])
  {
    var d := Validate(buffer).frame;
    DispatchUnknownTag(table, Tlv(d.tag, d.val, transferMethod));
  }

  /** Processing a command frame made by the builder hands its handler exactly the built tag and
      value, together with the transfer method the frame arrived with. */
  lemma ProcessBuiltCommand(table: seq<Entry>, callback: Option<SendCallback>, head: uint8, tag: uint8,
                            val: seq<uint8>, transferMethod: uint8)
    requires IsHeader(head) && |val| <= MAX_PROTOCOL_CMD_DATA_LEN
    ensures var h := TagHandle(table, Tlv(tag, val, transferMethod));
      ProcessSpec(true, table, callback, Frame(Some(head), tag, val, true), transferMethod).outcome
        == Responded(h.status)
  {
    RoundTrip(head, tag, val);
  }

  /** The report frame is |val| + 6 bytes long, starts with 0xCC and passes the inbound checks,
      which give back the tag and the value. */
  lemma ReportFrameValid(tag: uint8, val: seq<uint8>)
    requires |val| <= MAX_PROTOCOL_CMD_DATA_LEN
    ensures |ReportFrame(tag, val)| == |val| + 6
    ensures ReportFrame(tag, val)[0] == PROTOCOL_HEADER_REP
    ensures Validate(ReportFrame(tag, val)) == Accepted(Decoded(tag, val))
  {
    RoundTrip(PROTOCOL_HEADER_REP, tag, val);
  }

  /** A handler that answers every command with the one-byte value PROTOCOL_RSP_OK. */
  function AckHandler(cmd: Record, rsp: Record): (int, Record) {
    (0, rsp.(val := [PROTOCOL_RSP_OK]))
  }

  /** The example exchange of the protocol header, with the checksums filled in: command
      AA 01 00 02 00 00 with checksum 00 AD, to a table whose tag 1 handler acknowledges, is
      answered with BB 01 00 01 00 and checksum 00 BD. */
  lemma ExampleExchange(cb: SendCallback, transferMethod: uint8)
    ensures ProcessSpec(true, [Entry(1, Some(AckHandler))], Some(cb),
                        [0xAA, 0x01, 0x00, 0x02, 0x00, 0x00, 0x00, 0xAD], transferMethod)
         == Step(Responded(0), [Sent(cb, [0xBB, 0x01, 0x00, 0x01, 0x00, 0x00, 0xBD], 0)])
  {
    var cmd: seq<uint8> := [0xAA, 0x01, 0x00, 0x02, 0x00, 0x00];
    SumPrefixStep(cmd, 1); SumPrefixStep(cmd, 2); SumPrefixStep(cmd, 3);
    SumPrefixStep(cmd, 4); SumPrefixStep(cmd, 5); SumPrefixStep(cmd, 6);
    assert cmd[..0] == [] && cmd[..6] == cmd;
    assert Prefix(Some(PROTOCOL_HEADER_CMD), 1, [0, 0]) == cmd;
    assert CheckSum(cmd) == 0xAD;
    assert Frame(Some(PROTOCOL_HEADER_CMD), 1, [0, 0], true) == cmd + [0x00, 0xAD];
    RoundTrip(PROTOCOL_HEADER_CMD, 1, [0, 0]);
    var table := [Entry(1, Some(AckHandler))];
    DispatchFirstMatch(table, Tlv(1, [0, 0], transferMethod), 0);
    assert TagHandle(table, Tlv(1, [0, 0], transferMethod)) == Handled(0, Tlv(1, [PROTOCOL_RSP_OK], 0));
    var rsp: seq<uint8> := [0xBB, 0x01, 0x00, 0x01, 0x00];
    SumPrefixStep(rsp, 1); SumPrefixStep(rsp, 2); SumPrefixStep(rsp, 3);
    SumPrefixStep(rsp, 4); SumPrefixStep(rsp, 5);
    assert rsp[..0] == [] && rsp[..5] == rsp;
    assert Prefix(Some(PROTOCOL_HEADER_RSP), 1, [0]) == rsp;
    assert CheckSum(rsp) == 0xBD;
    assert Frame(Some(PROTOCOL_HEADER_RSP), 1, [0], true) == rsp + [0x00, 0xBD];
    var buffer: seq<uint8> := [0xAA, 0x01, 0x00, 0x02, 0x00, 0x00, 0x00, 0xAD];
    assert buffer == cmd + [0x00, 0xAD];
    assert Validate(buffer) == Accepted(Decoded(1, [0, 0]));
    assert rsp + [0x00, 0xBD] == [0xBB, 0x01, 0x00, 0x01, 0x00, 0x00, 0xBD];
  }
}
