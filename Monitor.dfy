/** The value-change monitor: a fixed table of MONITOR_MAX_NUM slots, each watching one typed
    field. A polling pass compares every active field with the value stored at the previous pass,
    calls the slot's callback with (old, new, desc) when they differ, and calls the global
    callback once when at least one slot changed.

    Watched fields are modelled as a map from field identifiers to integers; a field's value lies
    in the range of the type it was registered with. Callbacks are identities, and the calls the
    monitor makes are recorded in a ghost log. */
module Monitor {

  import opened Wrappers

  const MONITOR_MAX_NUM: nat := 5

  /** filed_type */
  datatype FieldType = TypeNull | TypeU8 | TypeI8 | TypeU16 | TypeI16 | TypeU32 | TypeI32

  /** The values a field of type t can hold. */
  predicate InRange(t: FieldType, v: int) {
    match t
    case TypeNull => true
    case TypeU8 => 0 <= v < 0x100
    case TypeI8 => -0x80 <= v < 0x80
    case TypeU16 => 0 <= v < 0x1_0000
    case TypeI16 => -0x8000 <= v < 0x8000
    case TypeU32 => 0 <= v < 0x1_0000_0000
    case TypeI32 => -0x8000_0000 <= v < 0x8000_0000
  }

  /** The address of a watched field; None is the NULL pointer. */
  type FieldId = nat

  /** The watched fields' current values. */
  type Memory = map<FieldId, int>

  /** change_callback and val_has_been_change_callback, by identity; None is NULL. */
  type ChangeCallback = nat
  type GlobalCallback = nat

  /** monitor_val_t. desc holds the string the C description pointer points to. */
  datatype Slot = Slot(field: Option<FieldId>, fieldType: FieldType, desc: Option<string>,
                       oldValue: int, callback: Option<ChangeCallback>, active: bool)

  /** A slot as the zero-initialised table and monitor_val_init leave it. */
  const EmptySlot := Slot(None, TypeNull, None, 0, None, false)

  /** A call the monitor makes into client code. */
  datatype Call =
    | SlotCall(callback: ChangeCallback, oldVal: int, newVal: int, desc: Option<string>)
    | GlobalCall(global: GlobalCallback)

  /** The typed read of the slot's field is defined: nothing is read for TYPE_NULL; otherwise the
      pointer is not NULL and points to a value of the declared type. */
  predicate FieldReadable(mem: Memory, field: Option<FieldId>, t: FieldType) {
    t == TypeNull || (field.Some? && field.value in mem && InRange(t, mem[field.value]))
  }

  predicate Readable(mem: Memory, s: Slot) {
    FieldReadable(mem, s.field, s.fieldType)
  }

  /** Every active slot can be read; the polling pass reads no other. */
  predicate AllReadable(mem: Memory, slots: seq<Slot>) {
    forall j :: 0 <= j < |slots| && slots[j].active ==> Readable(mem, slots[j])
  }

  /** The typed current value of a slot's field. */
  function Current(mem: Memory, s: Slot): int
    requires Readable(mem, s) && s.fieldType != TypeNull
  {
    mem[s.field.value]
  }

  /** monitor_val_ischange's verdict: a typed field whose value differs from the stored one.
      The source cannot read an unreadable field at all; the methods never reach one, and the
      specification functions treat it as unchanged. */
  predicate Changed(mem: Memory, s: Slot) {
    Readable(mem, s) && s.fieldType != TypeNull && Current(mem, s) != s.oldValue
  }

  /** monitor_val_ischange's effect on the slot: a change is stored as the new old value. */
  function Refresh(mem: Memory, s: Slot): Slot {
    if Changed(mem, s) then s.(oldValue := Current(mem, s)) else s
  }

  /** The slot monitor_val_add writes: field, type and description set, the old value brought to
      the field's current value through the change check, then the callback installed and the
      slot activated. */
  function NewSlot(mem: Memory, field: Option<FieldId>, t: FieldType,
                   callback: Option<ChangeCallback>, desc: Option<string>): (s: Slot)
    requires FieldReadable(mem, field, t)
    ensures s.active && s.field == field && s.fieldType == t && s.desc == desc && s.callback == callback
    ensures Readable(mem, s) && !Changed(mem, s)
    ensures t != TypeNull ==> s.oldValue == mem[field.value]
    ensures t == TypeNull ==> s.oldValue == 0
  {
    Refresh(mem, Slot(field, t, desc, 0, None, false)).(callback := callback, active := true)
  }

  /** The lowest-index inactive slot, if any. */
  function FirstFree(slots: seq<Slot>): (r: Option<nat>)
    ensures r.Some? ==> r.value < |slots| && !slots[r.value].active
    ensures r.Some? ==> forall j :: 0 <= j < r.value ==> slots[j].active
    ensures r.None? <==> forall j :: 0 <= j < |slots| ==> slots[j].active
  {
    if |slots| == 0 then None
    else if !slots[0].active then Some(0)
    else match FirstFree(slots[1..])
      case None => None
      case Some(i) => Some(i + 1)
  }

  /** One slot's share of the polling pass: the slot afterwards ... */
  function PollSlot(mem: Memory, s: Slot): Slot {
    if s.active then Refresh(mem, s) else s
  }

  /** ... and the per-slot callback it causes. */
  function SlotCallsOf(mem: Memory, s: Slot): seq<Call> {
    if s.active && Changed(mem, s) && s.callback.Some?
    then [SlotCall(s.callback.value, s.oldValue, Current(mem, s), s.desc)]
    else []
  }

  /** The table after a polling pass over slots. */
  function PollSlots(mem: Memory, slots: seq<Slot>): seq<Slot> {
    seq(|slots|, j requires 0 <= j < |slots| => PollSlot(mem, slots[j]))
  }

  /** The per-slot callbacks of a polling pass over the first n slots, in slot order. */
  function SlotCalls(mem: Memory, slots: seq<Slot>, n: nat): seq<Call>
    requires n <= |slots|
  {
    if n == 0 then [] else SlotCalls(mem, slots, n - 1) + SlotCallsOf(mem, slots[n - 1])
  }

  /** callback_flag after a polling pass over the first n slots. */
  function AnyChanged(mem: Memory, slots: seq<Slot>, n: nat): bool
    requires n <= |slots|
  {
    if n == 0 then false
    else AnyChanged(mem, slots, n - 1) || (slots[n - 1].active && Changed(mem, slots[n - 1]))
  }

  /** Every call of a polling pass: the per-slot ones, then the global one. */
  function PollCalls(mem: Memory, slots: seq<Slot>, global: Option<GlobalCallback>): seq<Call> {
    SlotCalls(mem, slots, |slots|)
      + (if global.Some? && AnyChanged(mem, slots, |slots|) then [GlobalCall(global.value)] else [])
  }

  /** The monitor_val[] table with g_init_flag, val_has_been_change_call and a log of the calls
      made into client code. */
  class MonitorTable {
    const slots: array<Slot>
    var initialized: bool
    var globalCallback: Option<GlobalCallback>
    ghost var calls: seq<Call>

    ghost predicate Valid()
    {
      slots.Length == MONITOR_MAX_NUM
    }

    /** The statically zero-initialised table: every slot inactive, the flag clear, no global
        callback. */
    constructor ()
      ensures Valid() && fresh(slots)
      ensures forall j :: 0 <= j < slots.Length ==> slots[j] == EmptySlot
      ensures !initialized && globalCallback == None && calls == []
    {
      slots := new Slot[MONITOR_MAX_NUM](_ => EmptySlot);
      initialized := false;
      globalCallback := None;
      calls := [];
    }

    /** monitor_val_init: the first call installs the global callback, clears every slot and
        returns 0; any later call returns -1 and changes nothing. */
    method Init(callback: Option<GlobalCallback>) returns (r: int)
      requires Valid()
      modifies this`initialized, this`globalCallback, slots
      ensures Valid()
      ensures old(initialized) ==> r == -1 && globalCallback == old(globalCallback) && initialized
                                   && slots[..] == old(slots[..])
      ensures !old(initialized) ==> r == 0 && globalCallback == callback && initialized
                                    && forall j :: 0 <= j < slots.Length ==> slots[j] == EmptySlot
    {
      if initialized {
        return -1;
      }
      globalCallback := callback;
      for i := 0 to slots.Length
        invariant forall j :: 0 <= j < i ==> slots[j] == EmptySlot
        invariant globalCallback == callback
      {
        slots[i] := EmptySlot;
      }
      initialized := true;
      return 0;
    }

    /** monitor_val_ischange on slot i: reports whether the typed field differs from the stored
        old value and, if so, stores the new value. */
    method IsChange(i: nat, mem: Memory) returns (changed: bool)
      requires Valid() && i < slots.Length && Readable(mem, slots[i])
      modifies slots
      ensures changed == Changed(mem, old(slots[i]))
      ensures slots[..] == old(slots[..])[i := Refresh(mem, old(slots[i]))]
    {
      var s := slots[i];
      var current := 0;
      changed := false;
      if s.fieldType != TypeNull {
        // The typed read through the field pointer: InRange holds of the value read.
        current := mem[s.field.value];
        if current != s.oldValue {
          changed := true;
        }
      }
      if changed {
        slots[i] := s.(oldValue := current);
      }
    }

    /** monitor_val_add: fills the lowest-index inactive slot and returns its index, or returns -1
        when every slot is active. It does not require monitor_val_init to have run, and makes no
        call into client code. */
    method Add(field: Option<FieldId>, t: FieldType, callback: Option<ChangeCallback>,
               desc: Option<string>, mem: Memory) returns (idx: int)
      requires Valid()
      requires FirstFree(slots[..]).Some? ==> FieldReadable(mem, field, t)
      modifies slots
      ensures FirstFree(old(slots[..])).None? ==> idx == -1 && slots[..] == old(slots[..])
      ensures FirstFree(old(slots[..])).Some? ==>
                idx == FirstFree(old(slots[..])).value
                && slots[..] == old(slots[..])[idx := NewSlot(mem, field, t, callback, desc)]
      ensures calls == old(calls)
    {
      for i := 0 to slots.Length
        invariant slots[..] == old(slots[..])
        invariant forall j :: 0 <= j < i ==> slots[j].active
      {
        if !slots[i].active {
          FirstFreeIsLowest(slots[..], i);
          slots[i] := slots[i].(field := field, oldValue := 0, fieldType := t, desc := desc);
          var _ := IsChange(i, mem);
          slots[i] := slots[i].(callback := callback, active := true);
          return i;
        }
      }
      return -1;
    }

    /** The body of monitor_run_handler's loop for slot i: an inactive slot is skipped; an active
        one is checked, and a change is passed to the slot's callback, if any. */
    method PollAt(i: nat, mem: Memory) returns (changed: bool)
      requires Valid() && i < slots.Length && (slots[i].active ==> Readable(mem, slots[i]))
      modifies this`calls, slots
      ensures changed == (old(slots[i]).active && Changed(mem, old(slots[i])))
      ensures slots[..] == old(slots[..])[i := PollSlot(mem, old(slots[i]))]
      ensures calls == old(calls) + SlotCallsOf(mem, old(slots[i]))
    {
      if !slots[i].active {
        return false;
      }
      var oldVal := slots[i].oldValue;
      changed := IsChange(i, mem);
      if changed {
        var newVal := slots[i].oldValue;
        var desc := slots[i].desc;
        if slots[i].callback.Some? {
          calls := calls + [SlotCall(slots[i].callback.value, oldVal, newVal, desc)];
        }
      }
    }

    /** monitor_run_handler: one polling pass over the table, then the global callback when any
        slot changed. */
    method RunHandler(mem: Memory)
      requires Valid() && AllReadable(mem, slots[..])
      modifies this`calls, slots
      ensures slots[..] == PollSlots(mem, old(slots[..]))
      ensures calls == old(calls) + PollCalls(mem, old(slots[..]), globalCallback)
    {
      ghost var s0 := slots[..];
      var callbackFlag := false;
      for i := 0 to slots.Length
        invariant forall j :: 0 <= j < slots.Length ==> slots[j] == if j < i then PollSlot(mem, s0[j]) else s0[j]
        invariant calls == old(calls) + SlotCalls(mem, s0, i)
        invariant callbackFlag == AnyChanged(mem, s0, i)
      {
        var changed := PollAt(i, mem);
        if changed {
          callbackFlag := true;
        }
      }
      assert slots[..] == PollSlots(mem, s0);
      if globalCallback.Some? && callbackFlag {
        calls := calls + [GlobalCall(globalCallback.value)];
      }
    }
  }

  /** A client: the second monitor_val_init is refused and the first callback stays installed. */
  method InitTwice(first: Option<GlobalCallback>, second: Option<GlobalCallback>)
    returns (r1: int, r2: int, installed: Option<GlobalCallback>)
    ensures r1 == 0 && r2 == -1 && installed == first
  {
    var m := new MonitorTable();
    r1 := m.Init(first);
    r2 := m.Init(second);
    installed := m.globalCallback;
  }

  /** A slot found by the scan of monitor_val_add is the first free one. */
  lemma FirstFreeIsLowest(slots: seq<Slot>, i: nat)
    requires i < |slots| && !slots[i].active
    requires forall j :: 0 <= j < i ==> slots[j].active
    ensures FirstFree(slots) == Some(i)
  {
    var r := FirstFree(slots);
    assert r.Some?;
    assert !(r.value < i) && !(r.value > i);
  }

  /** After a polling pass only stored old values have changed, inactive slots are untouched,
      and every active slot holds its field's current value, so it no longer counts as changed. */
  lemma PollSlotsSettles(mem: Memory, slots: seq<Slot>)
    ensures |PollSlots(mem, slots)| == |slots|
    ensures forall j :: 0 <= j < |slots| ==>
              PollSlots(mem, slots)[j] == slots[j].(oldValue := PollSlots(mem, slots)[j].oldValue)
    ensures forall j :: 0 <= j < |slots| && !slots[j].active ==> PollSlots(mem, slots)[j] == slots[j]
    ensures forall j :: 0 <= j < |slots| && slots[j].active ==> !Changed(mem, PollSlots(mem, slots)[j])
    ensures forall j :: 0 <= j < |slots| && slots[j].active && Readable(mem, slots[j]) && slots[j].fieldType != TypeNull ==>
              PollSlots(mem, slots)[j].oldValue == Current(mem, slots[j])
  {
  }

  /** No active slot differs from its field. */
  predicate Settled(mem: Memory, slots: seq<Slot>) {
    forall j :: 0 <= j < |slots| && slots[j].active ==> !Changed(mem, slots[j])
  }

  /** Over a table in which no active slot has changed, the first n slots cause no call and
      leave the flag clear. */
  lemma {:induction false} QuietSlots(mem: Memory, slots: seq<Slot>, n: nat)
    requires Settled(mem, slots) && n <= |slots|
    ensures SlotCalls(mem, slots, n) == [] && !AnyChanged(mem, slots, n)
  {
    if n > 0 {
      QuietSlots(mem, slots, n - 1);
      var last := slots[n - 1];
      assert last.active ==> !Changed(mem, last);
      assert SlotCallsOf(mem, last) == [];
    }
  }

  /** A table in which no active slot has changed is left as it is by a polling pass, which
      makes no call. */
  lemma QuietPoll(mem: Memory, slots: seq<Slot>, global: Option<GlobalCallback>)
    requires Settled(mem, slots)
    ensures PollSlots(mem, slots) == slots
    ensures PollCalls(mem, slots, global) == []
  {
    QuietSlots(mem, slots, |slots|);
  }

  /** Idempotence: a second polling pass with no field change in between changes nothing and
      makes no call, because the first pass stored the new values. */
  lemma SecondPollQuiet(mem: Memory, slots: seq<Slot>, global: Option<GlobalCallback>)
    ensures PollSlots(mem, PollSlots(mem, slots)) == PollSlots(mem, slots)
    ensures PollCalls(mem, PollSlots(mem, slots), global) == []
  {
    PollSlotsSettles(mem, slots);
    QuietPoll(mem, PollSlots(mem, slots), global);
  }

  /** The flag is set exactly when some active slot among the first n has changed. */
  lemma {:induction false} AnyChangedIff(mem: Memory, slots: seq<Slot>, n: nat)
    requires n <= |slots|
    ensures AnyChanged(mem, slots, n) <==> exists j :: 0 <= j < n && slots[j].active && Changed(mem, slots[j])
  {
    if n > 0 {
      AnyChangedIff(mem, slots, n - 1);
    }
  }

  /** Every per-slot call reports a real change of an active slot: the callback, the stored old
      value, the field's current value and the description of that slot. */
  lemma {:induction false} SlotCallsReportChanges(mem: Memory, slots: seq<Slot>, n: nat)
    requires n <= |slots|
    ensures forall k :: 0 <= k < |SlotCalls(mem, slots, n)| ==>
              var c := SlotCalls(mem, slots, n)[k];
              c.SlotCall? && c.oldVal != c.newVal &&
              exists j :: 0 <= j < n && slots[j].active && Changed(mem, slots[j])
                          && slots[j].callback == Some(c.callback) && c.oldVal == slots[j].oldValue
                          && c.newVal == Current(mem, slots[j]) && c.desc == slots[j].desc
  {
    if n > 0 {
      SlotCallsReportChanges(mem, slots, n - 1);
      var before := SlotCalls(mem, slots, n - 1);
      var calls := SlotCalls(mem, slots, n);
      assert calls == before + SlotCallsOf(mem, slots[n - 1]);
      forall k | |before| <= k < |calls|
        ensures var c := calls[k];
                c.SlotCall? && c.oldVal != c.newVal &&
                exists j :: 0 <= j < n && slots[j].active && Changed(mem, slots[j])
                            && slots[j].callback == Some(c.callback) && c.oldVal == slots[j].oldValue
                            && c.newVal == Current(mem, slots[j]) && c.desc == slots[j].desc
      {
        assert calls[k] == SlotCallsOf(mem, slots[n - 1])[0];
      }
    }
  }

  /** A slot's callback is called exactly when the slot is active, has changed and has a callback:
      the per-slot calls of the first n slots are empty if and only if no such slot exists. */
  lemma {:induction false} SlotCallsEmptyIff(mem: Memory, slots: seq<Slot>, n: nat)
    requires n <= |slots|
    ensures SlotCalls(mem, slots, n) == [] <==>
            forall j :: 0 <= j < n && slots[j].active && Changed(mem, slots[j]) ==> slots[j].callback.None?
  {
    if n > 0 {
      SlotCallsEmptyIff(mem, slots, n - 1);
    }
  }

  /** The global callback is called at most once per pass, after every per-slot call, and it is
      called if and only if it is installed and at least one active slot changed. */
  lemma GlobalCallOnce(mem: Memory, slots: seq<Slot>, global: Option<GlobalCallback>)
    ensures forall k :: 0 <= k < |PollCalls(mem, slots, global)| && PollCalls(mem, slots, global)[k].GlobalCall? ==>
              k == |PollCalls(mem, slots, global)| - 1 && global.Some?
              && PollCalls(mem, slots, global)[k] == GlobalCall(global.value)
    ensures (exists k :: 0 <= k < |PollCalls(mem, slots, global)| && PollCalls(mem, slots, global)[k].GlobalCall?)
            <==> global.Some? && exists j :: 0 <= j < |slots| && slots[j].active && Changed(mem, slots[j])
  {
    SlotCallsReportChanges(mem, slots, |slots|);
    AnyChangedIff(mem, slots, |slots|);
    var calls := PollCalls(mem, slots, global);
    if global.Some? && AnyChanged(mem, slots, |slots|) {
      assert calls[|calls| - 1].GlobalCall?;
    }
  }
}
