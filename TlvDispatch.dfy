/** Tag dispatch: the first-match table lookup, the recursive walk over nested sub-records and the
    merge of their bare TLV replies into one value of at most 128 bytes. */
module TlvDispatch {

  import opened Wrappers
  import opened TlvTypes
  import opened TlvCodec

  datatype Handled = Handled(status: int, rsp: Record)

  /** Whether entry e would be invoked for tag: same tag and a non-NULL handler. */
  predicate Serves(e: Entry, tag: uint8) {
    e.tag == tag && e.cb.Some?
  }

  /** The index of the first entry serving tag, if there is one. */
  function {:induction false} FindHandler(table: seq<Entry>, tag: uint8): (r: Option<nat>)
    ensures r.Some? ==> r.value < |table| && Serves(table[r.value], tag)
    ensures r.Some? ==> forall k :: 0 <= k < r.value ==> !Serves(table[k], tag)
    ensures r.None? ==> forall k :: 0 <= k < |table| ==> !Serves(table[k], tag)
  {
    if table == [] then None
    else if Serves(table[0], tag) then Some(0)
    else match FindHandler(table[1..], tag)
      case None => None
      case Some(i) => Some(i + 1)
  }

  /** The response record protocol_tag_handle starts from: zero-initialised, with the command's tag. */
  function InitialResponse(tag: uint8): Record {
    Tlv(tag, [], 0)
  }

  /** The bare TLV fragment (no header, no checksum) that encodes a response record. */
  function Fragment(rsp: Record): seq<uint8> {
    Frame(None, rsp.tag, rsp.val, false)
  }

  /** protocol_tag_handle. The nested walk is handed the value length narrowed to uint8_t. */
  function TagHandle(table: seq<Entry>, cmd: Record): Handled
    decreases |cmd.val|, 1
  {
    var rsp := InitialResponse(cmd.tag);
    if cmd.tag == PROTOCOL_TAG_NESTED then
      var valLength := |cmd.val| % 0x100;
      var fragments := NestedWalk(table, cmd.val[..valLength]);
      if fragments == [] then Handled(-1, rsp)
      else Handled(0, rsp.(val := Merge(fragments)))
    else
      match FindHandler(table, cmd.tag)
      case None => Handled(0, rsp)
      case Some(i) =>
        var (status, filled) := table[i].cb.value(cmd, rsp);
        Handled(status, filled)
  }

  /** protocol_nested_packet_handle, left to right: each sub-record is tag, 2-byte length and value;
      it is dispatched with transfer method 0 and its response encoded as a bare fragment. The walk
      stops at a sub-record that does not fit in the bytes that remain (the source reads on past
      them, see NextRemainingAsWritten). */
  function NestedWalk(table: seq<Entry>, data: seq<uint8>): seq<seq<uint8>>
    requires |data| <= MAX_PROTOCOL_CMD_DATA_LEN
    decreases |data|, 0
  {
    if |data| < 3 then []
    else
      var len := BE16(data[1], data[2]);
      if 3 + len > |data| then []
      else
        var h := TagHandle(table, Tlv(data[0], data[3..3 + len], 0));
        [Fragment(h.rsp)] + NestedWalk(table, data[3 + len..])
  }

  /** The remaining length the source hands to the next step of the walk: data_len - 3 - len in
      uint16_t arithmetic. */
  function NextRemainingAsWritten(dataLen: uint16, len: uint16): uint16 {
    (dataLen - 3 - len) % 0x1_0000
  }

  /** A 3-byte nested value 01 00 01 declares one value byte but has none left: the source's next
      step is told that 65535 bytes remain, far more than the 3 bytes there are. */
  lemma NestedWalkWrapsAsWritten()
    ensures NextRemainingAsWritten(3, BE16(0x00, 0x01)) == 0xFFFF
  {
  }

  /** The walk reads no byte past the value: every fragment comes from a sub-record that lies
      inside it, so there are at most |data| / 3 fragments. */
  lemma {:induction false} NestedWalkStaysInside(table: seq<Entry>, data: seq<uint8>)
    requires |data| <= MAX_PROTOCOL_CMD_DATA_LEN
    ensures 3 * |NestedWalk(table, data)| <= |data|
    ensures NestedWalk(table, data) == [] <==> |data| < 3 || 3 + BE16(data[1], data[2]) > |data|
    decreases |data|
  {
    if |data| >= 3 {
      var len := BE16(data[1], data[2]);
      if 3 + len <= |data| {
        NestedWalkStaysInside(table, data[3 + len..]);
      }
    }
  }

  // ---------------------------------------------------------------- merge

  /** The concatenation of the fragments. */
  function Concat(fragments: seq<seq<uint8>>): seq<uint8> {
    if fragments == [] then [] else fragments[0] + Concat(fragments[1..])
  }

  /** How many leading fragments fit in budget bytes when taken one by one. */
  function TakeCount(fragments: seq<seq<uint8>>, budget: nat): (k: nat)
    ensures k <= |fragments|
  {
    if fragments == [] || |fragments[0]| > budget then 0
    else 1 + TakeCount(fragments[1..], budget - |fragments[0]|)
  }

  /** protocol_list_tlv_2_bytes as a value: append fragments in order to acc, stopping at the first
      one that would take the total past 128 bytes. */
  function {:induction false} MergeFrom(fragments: seq<seq<uint8>>, acc: seq<uint8>): (merged: seq<uint8>)
    requires |acc| <= MAX_PROTOCOL_CMD_DATA_LEN
    ensures |merged| <= MAX_PROTOCOL_CMD_DATA_LEN
    ensures merged == acc + Concat(fragments[..TakeCount(fragments, MAX_PROTOCOL_CMD_DATA_LEN - |acc|)])
  {
    if fragments == [] || |acc| + |fragments[0]| > MAX_PROTOCOL_CMD_DATA_LEN then
      assert fragments[..0] == [];
      acc
    else
      var merged := MergeFrom(fragments[1..], acc + fragments[0]);
      ghost var k := TakeCount(fragments[1..], MAX_PROTOCOL_CMD_DATA_LEN - |acc| - |fragments[0]|);
      assert fragments[..k + 1] == [fragments[0]] + fragments[1..][..k];
      merged
  }

  function Merge(fragments: seq<seq<uint8>>): (merged: seq<uint8>)
    ensures |merged| <= MAX_PROTOCOL_CMD_DATA_LEN
  {
    MergeFrom(fragments, [])
  }

  /** The concatenation of k fragments taken by TakeCount fits the budget, and when a fragment is
      left over, adding it would not. */
  lemma {:induction false} TakeCountIsLongest(fragments: seq<seq<uint8>>, budget: nat)
    ensures var k := TakeCount(fragments, budget);
      && |Concat(fragments[..k])| <= budget
      && (k < |fragments| ==> |Concat(fragments[..k + 1])| > budget)
  {
    var k := TakeCount(fragments, budget);
    if fragments == [] || |fragments[0]| > budget {
      assert fragments[..0] == [];
      if fragments != [] {
        assert Concat(fragments[..1]) == fragments[0] + Concat([]) by { assert fragments[..1][1..] == []; }
      }
    } else {
      var rest := fragments[1..];
      TakeCountIsLongest(rest, budget - |fragments[0]|);
      var j := TakeCount(rest, budget - |fragments[0]|);
      assert fragments[..j + 1][1..] == rest[..j];
      if j < |rest| {
        assert fragments[..j + 2][1..] == rest[..j + 1];
      }
    }
  }

  /** The merged value is the longest in-order prefix of the fragments whose total is at most 128. */
  lemma MergeIsLongestFittingPrefix(fragments: seq<seq<uint8>>)
    ensures var k := TakeCount(fragments, MAX_PROTOCOL_CMD_DATA_LEN);
      && Merge(fragments) == Concat(fragments[..k])
      && |Merge(fragments)| <= MAX_PROTOCOL_CMD_DATA_LEN
      && (k < |fragments| ==> |Concat(fragments[..k + 1])| > MAX_PROTOCOL_CMD_DATA_LEN)
  {
    TakeCountIsLongest(fragments, MAX_PROTOCOL_CMD_DATA_LEN);
  }

  // ---------------------------------------------------------------- dispatch properties

  /** A tag that no entry serves gets the zero-initialised response: status 0, the command's tag,
      an empty value and transfer method 0. */
  lemma DispatchUnknownTag(table: seq<Entry>, cmd: Record)
    requires cmd.tag != PROTOCOL_TAG_NESTED
    requires forall k :: 0 <= k < |table| ==> !Serves(table[k], cmd.tag)
    ensures TagHandle(table, cmd) == Handled(0, Tlv(cmd.tag, [], 0))
  {
  }

  /** A served tag invokes the first serving entry on the command and the initial response, and
      its status and filled-in response are the result. */
  lemma DispatchFirstMatch(table: seq<Entry>, cmd: Record, i: nat)
    requires cmd.tag != PROTOCOL_TAG_NESTED
    requires i < |table| && Serves(table[i], cmd.tag)
    requires forall k :: 0 <= k < i ==> !Serves(table[k], cmd.tag)
    ensures var (status, filled) := table[i].cb.value(cmd, Tlv(cmd.tag, [], 0));
      TagHandle(table, cmd) == Handled(status, filled)
  {
    var r := FindHandler(table, cmd.tag);
    assert r == Some(i);
  }

  /** A handler that leaves the response record's tag as it found it. */
  ghost predicate KeepsTag(h: Handler) {
    forall c: Record, r: Record :: h(c, r).1.tag == r.tag
  }

  /** protocol_tag_handle sets the response tag to the command tag before anything else: unless a
      handler rewrites it, the response carries the command's tag. */
  lemma ResponseTagIsCommandTag(table: seq<Entry>, cmd: Record)
    requires forall k :: 0 <= k < |table| && table[k].cb.Some? ==> KeepsTag(table[k].cb.value)
    ensures TagHandle(table, cmd).rsp.tag == cmd.tag
  {
  }

  /** A nested record with an empty value produces no fragment and status -1; the response keeps
      the nested tag and stays empty. */
  lemma NestedEmptyValue(table: seq<Entry>, transferMethod: uint8)
    ensures TagHandle(table, Tlv(PROTOCOL_TAG_NESTED, [], transferMethod)) == Handled(-1, Tlv(PROTOCOL_TAG_NESTED, [], 0))
  {
  }

  /** The bare TLV encoding of a list of sub-records, one after another. */
  function EncodeSubs(subs: seq<Record>): seq<uint8> {
    if subs == [] then [] else Fragment(subs[0]) + EncodeSubs(subs[1..])
  }

  /** The reply fragment of one sub-record, which the walk dispatches with transfer method 0. */
  function ReplyFragment(table: seq<Entry>, sub: Record): seq<uint8> {
    Fragment(TagHandle(table, sub.(transferMethod := 0)).rsp)
  }

  /** For a well-formed nested value (sub-records that tile it exactly), the walk produces one
      reply fragment per sub-record, in left-to-right order. */
  lemma {:induction false} NestedWalkWellFormed(table: seq<Entry>, subs: seq<Record>)
    requires |EncodeSubs(subs)| <= MAX_PROTOCOL_CMD_DATA_LEN
    ensures |NestedWalk(table, EncodeSubs(subs))| == |subs|
    ensures forall k :: 0 <= k < |subs| ==> NestedWalk(table, EncodeSubs(subs))[k] == ReplyFragment(table, subs[k])
  {
    if subs != [] {
      var s := subs[0];
      var data := EncodeSubs(subs);
      var rest := EncodeSubs(subs[1..]);
      assert data == [s.tag, |s.val| / 0x100, |s.val| % 0x100] + s.val + rest;
      assert BE16(data[1], data[2]) == |s.val|;
      assert data[3..3 + |s.val|] == s.val;
      assert data[3 + |s.val|..] == rest;
      assert Tlv(data[0], data[3..3 + |s.val|], 0) == s.(transferMethod := 0);
      NestedWalkWellFormed(table, subs[1..]);
    }
  }

  // ---------------------------------------------------------------- the source's procedures

  /** protocol_list_tlv_2_bytes: copies fragments into the 128-byte response buffer with a moving
      index, stopping at the first fragment that would not fit. */
  method ListTlv2Bytes(fragments: seq<seq<uint8>>, rspByteVal: array<uint8>) returns (rspLen: uint16)
    requires rspByteVal.Length == MAX_PROTOCOL_CMD_DATA_LEN
    modifies rspByteVal
    ensures rspLen <= MAX_PROTOCOL_CMD_DATA_LEN
    ensures rspByteVal[..rspLen] == Merge(fragments)
  {
    var rspByteIndex: nat := 0;
    var i := 0;
    while i < |fragments|
      invariant i <= |fragments|
      invariant rspByteIndex <= MAX_PROTOCOL_CMD_DATA_LEN
      invariant MergeFrom(fragments[i..], rspByteVal[..rspByteIndex]) == Merge(fragments)
    {
      var fragment := fragments[i];
      if rspByteIndex + |fragment| > MAX_PROTOCOL_CMD_DATA_LEN {
        break;
      }
      ghost var before := rspByteVal[..rspByteIndex];
      forall k | 0 <= k < |fragment| {
        rspByteVal[rspByteIndex + k] := fragment[k];
      }
      assert forall k :: 0 <= k < rspByteIndex + |fragment| ==>
               rspByteVal[k] == if k < rspByteIndex then before[k] else fragment[k - rspByteIndex];
      assert rspByteVal[..rspByteIndex + |fragment|] == before + fragment;
      rspByteIndex := rspByteIndex + |fragment|;
      i := i + 1;
    }
    rspLen := rspByteIndex;
  }

  /** protocol_tag_handle: the nested tag goes through the walk and the merge; any other tag is
      looked up by a first-match scan of the table and handed to that entry's handler. */
  method ProtocolTagHandle(table: seq<Entry>, cmd: Record) returns (status: int, rsp: Record)
    ensures Handled(status, rsp) == TagHandle(table, cmd)
    decreases |cmd.val|, 1
  {
    var tag := cmd.tag;
    var valLength := |cmd.val| % 0x100;
    rsp := InitialResponse(tag);
    if tag == PROTOCOL_TAG_NESTED {
      var listNested := NestedPacketHandle(table, cmd.val[..valLength], []);
      assert listNested == NestedWalk(table, cmd.val[..valLength]);
      if |listNested| == 0 {
        return -1, rsp;
      }
      var rspVal := new uint8[MAX_PROTOCOL_CMD_DATA_LEN];
      var rspLen := ListTlv2Bytes(listNested, rspVal);
      rsp := rsp.(val := rspVal[..rspLen]);
      return 0, rsp;
    }
    var i := 0;
    while i < |table|
      invariant i <= |table|
      invariant forall k :: 0 <= k < i ==> !Serves(table[k], tag)
    {
      if table[i].tag == tag {
        if table[i].cb.Some? {
          assert FindHandler(table, tag) == Some(i);
          var result := table[i].cb.value(cmd, rsp);
          return result.0, result.1;
        }
      }
      i := i + 1;
    }
    return 0, rsp;
  }

  /** protocol_nested_packet_handle: dispatches the first sub-record, appends the bare fragment of
      its response to the list, and recurses on the bytes after it. */
  method NestedPacketHandle(table: seq<Entry>, data: seq<uint8>, listNested: seq<seq<uint8>>)
    returns (list': seq<seq<uint8>>)
    requires |data| <= MAX_PROTOCOL_CMD_DATA_LEN
    ensures list' == listNested + NestedWalk(table, data)
    decreases |data|, 0
  {
    if |data| == 0 {
      return listNested;
    }
    if |data| < 3 || 3 + BE16(data[1], data[2]) > |data| {
      return listNested;
    }
    var len := BE16(data[1], data[2]);
    var cmd := Tlv(data[0], data[3..3 + len], 0);
    var status, rspVal := ProtocolTagHandle(table, cmd);
    var packet := PacketCreate(None, rspVal.tag, |rspVal.val|, rspVal.val, false);
    var fragment := packet.data[..packet.len];
    list' := NestedPacketHandle(table, data[3 + len..], listNested + [fragment]);
  }
}
