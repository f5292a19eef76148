/** The AMI keycode shim: it hooks ReadEfikey of every AMI_EFIKEYCODE_PROTOCOL,
    turns each key read into USB HID terms and reports it to the Apple key map
    database, and keeps a 12-entry ring of keys read during its own polling so that
    the firmware's next caller still gets them. */
module AmiShimKeycode {
  import opened Types
  import opened InputKeys
  import Ps2Map
  import ShimSlots
  import AmiShim

  /** MAX_KEYCODES, MAX_KEY_NUM and MAX_KEY_BUFFER_SIZE. */
  const MaxKeycodes: nat := 12
  const MaxKeyNum: nat := 6
  const MaxKeyBufferSize: nat := 12

  /** The pending-keys ring: an array of slots, the next slot to write (head), the
      oldest key (tail) and the number of keys held. */
  datatype KeysBuffer = KeysBuffer(slots: seq<AmiKeyData>, head: nat, tail: nat, size: nat)

  predicate ValidBuffer(b: KeysBuffer) {
    && |b.slots| == MaxKeyBufferSize
    && b.tail < MaxKeyBufferSize
    && b.size <= MaxKeyBufferSize
    && b.head == (b.tail + b.size) % MaxKeyBufferSize
  }

  /** One step along the ring, wrapping at the end of the array. */
  function Advance(p: nat): (q: nat)
    requires p < MaxKeyBufferSize
    ensures q == (p + 1) % MaxKeyBufferSize
  {
    if p + 1 == MaxKeyBufferSize then 0 else p + 1
  }

  /** The keys held, oldest first. */
  function Contents(b: KeysBuffer): (c: seq<AmiKeyData>)
    requires ValidBuffer(b)
    ensures |c| == b.size
  {
    seq(b.size, k requires 0 <= k < b.size => b.slots[(b.tail + k) % MaxKeyBufferSize])
  }

  /** AmiShimKeycodeInitKeysBuffer: both ends at slot 0 and nothing held; the slots
      keep whatever they held. */
  function InitKeysBuffer(b: KeysBuffer): (r: KeysBuffer)
    requires |b.slots| == MaxKeyBufferSize
    ensures ValidBuffer(r) && Contents(r) == []
    ensures r.head == 0 && r.tail == 0 && r.slots == b.slots
  {
    KeysBuffer(b.slots, 0, 0, 0)
  }

  lemma ModShift(t: nat, k: nat)
    ensures ((t + 1) % MaxKeyBufferSize + k) % MaxKeyBufferSize == (t + 1 + k) % MaxKeyBufferSize
  {
  }

  /** Forgetting the oldest key, as both the reader and a writer into a full ring do. */
  function DropOldest(b: KeysBuffer): (r: KeysBuffer)
    requires ValidBuffer(b) && b.size > 0
    ensures ValidBuffer(r) && Contents(r) == Contents(b)[1..]
    ensures r.slots == b.slots && r.head == b.head
  {
    var r := b.(size := b.size - 1, tail := Advance(b.tail));
    ModShift(b.tail, b.size - 1);
    assert ValidBuffer(r);
    forall k | 0 <= k < r.size
      ensures Contents(r)[k] == Contents(b)[k + 1]
    {
      ModShift(b.tail, k);
    }
    assert |Contents(r)| == |Contents(b)[1..]|;
    assert Contents(r) == Contents(b)[1..];
    r
  }

  /** AmiShimKeycodeReadKeysBuffer: the oldest key, if any. */
  function ReadKeysBuffer(b: KeysBuffer): (r: (Option<AmiKeyData>, KeysBuffer))
    requires ValidBuffer(b)
    ensures ValidBuffer(r.1)
    ensures Contents(b) == [] ==> r == (None, b)
    ensures Contents(b) != [] ==> r.0 == Some(Contents(b)[0]) && Contents(r.1) == Contents(b)[1..]
  {
    if b.size == 0 then (None, b)
    else
      assert Contents(b)[0] == b.slots[b.tail];
      (Some(b.slots[b.tail]), DropOldest(b))
  }

  /** Two different positions among the keys held are different slots. */
  lemma SlotsDistinct(t: nat, k: nat, n: nat)
    requires k < n <= MaxKeyBufferSize
    ensures (t + k) % MaxKeyBufferSize != (t + n) % MaxKeyBufferSize || n - k == MaxKeyBufferSize
  {
  }

  /** Storing a key at the head of a ring that has room. */
  function Push(b: KeysBuffer, key: AmiKeyData): KeysBuffer
    requires ValidBuffer(b) && b.size < MaxKeyBufferSize
  {
    KeysBuffer(b.slots[b.head := key], Advance(b.head), b.tail, b.size + 1)
  }

  /** Pushing appends: the slot written is none of the slots already held. */
  lemma PushAppends(b: KeysBuffer, key: AmiKeyData)
    requires ValidBuffer(b) && b.size < MaxKeyBufferSize
    ensures ValidBuffer(Push(b, key)) && Contents(Push(b, key)) == Contents(b) + [key]
  {
    var r := Push(b, key);
    RingStep(b.tail + b.size);
    assert ValidBuffer(r);
    var c := Contents(r);
    forall k | 0 <= k < b.size
      ensures c[k] == Contents(b)[k]
    {
      PushKeepsHeld(b, key, k);
    }
    assert c[b.size] == key;
  }

  lemma RingStep(x: nat)
    ensures (x % MaxKeyBufferSize + 1) % MaxKeyBufferSize == (x + 1) % MaxKeyBufferSize
  {
  }

  /** The slot a push writes holds none of the keys already in the ring. */
  lemma PushKeepsHeld(b: KeysBuffer, key: AmiKeyData, k: nat)
    requires ValidBuffer(b) && k < b.size < MaxKeyBufferSize
    ensures b.slots[b.head := key][(b.tail + k) % MaxKeyBufferSize] == b.slots[(b.tail + k) % MaxKeyBufferSize]
  {
    SlotsDistinct(b.tail, k, b.size);
  }

  /** AmiShimKeycodeWriteKeysBuffer: appends a key, first dropping the oldest one when
      all twelve slots are in use. */
  function WriteKeysBuffer(b: KeysBuffer, key: AmiKeyData): (r: KeysBuffer)
    requires ValidBuffer(b)
    ensures ValidBuffer(r)
    ensures Contents(r) == (if b.size == MaxKeyBufferSize then Contents(b)[1..] else Contents(b)) + [key]
  {
    var eaten := if b.size == MaxKeyBufferSize then DropOldest(b) else b;
    PushAppends(eaten, key);
    Push(eaten, key)
  }

  /** Whatever is written into a ring of n keys comes back out in order: the ring
      holds the last twelve keys written, oldest first. */
  lemma WriteThenReadIsFifo(b: KeysBuffer, key: AmiKeyData)
    requires ValidBuffer(b) && b.size < MaxKeyBufferSize
    ensures var r := ReadKeysBuffer(WriteKeysBuffer(b, key));
      r.0 == Some((Contents(b) + [key])[0]) && Contents(r.1) == (Contents(b) + [key])[1..]
  {
  }

  /** Who ReadEfikey dispatches to: some firmware routine, or the shim's own hook. */
  datatype ReadEfikeyRoutine = FirmwareReadEfikey(id: nat) | ShimReadEfikey

  /** AMI_SHIM_KEYCODE_INSTANCE. Handles and protocol pointers are numbers, 0 for NULL. */
  datatype Keycode = Keycode(
    deviceHandle: nat,
    protocol: nat,
    originalReadEfikey: Option<ReadEfikeyRoutine>,
    keyMapDbIndex: nat,
    currentModifiers: ModifierMap,
    currentKeys: seq<AppleKey>,
    currentNumberOfKeys: nat,
    currentDbHasData: bool,
    performingManualPoll: bool,
    buffer: KeysBuffer)

  /** The pending keys fill the front of the six key slots; the rest hold the zero code. */
  predicate KeysShape(k: Keycode) {
    && |k.currentKeys| == MaxKeyNum
    && k.currentNumberOfKeys <= MaxKeyNum
    && forall j :: k.currentNumberOfKeys <= j < MaxKeyNum ==> k.currentKeys[j] == NoKey
  }

  /** The state every operation keeps: well-shaped keys, at most one of them pending
      (InsertKey flushes before a second), and a consistent ring. */
  predicate Inv(k: Keycode) {
    KeysShape(k) && k.currentNumberOfKeys <= 1 && ValidBuffer(k.buffer)
  }

  function PendingKeys(k: Keycode): seq<AppleKey>
    requires KeysShape(k)
  {
    k.currentKeys[..k.currentNumberOfKeys]
  }

  /** A call of the key map database's SetKeyStrokeBufferKeys. */
  datatype DbCall = SetKeyStrokeBufferKeys(index: nat, modifiers: ModifierMap, keys: seq<AppleKey>)

  /** An instance after an operation, with the database calls it made in order. */
  datatype Step = Step(keycode: Keycode, calls: seq<DbCall>)

  /** SendData talks to the database only with keys to report, a previous report to
      clear, or modifiers to pass on. */
  predicate SendActs(k: Keycode, passModifiers: bool) {
    k.currentNumberOfKeys > 0 || k.currentDbHasData || passModifiers
  }

  const NoKeys: seq<AppleKey> := [NoKey, NoKey, NoKey, NoKey, NoKey, NoKey]

  /** AmiShimKeycodeSendData: reports the pending keys with the current modifiers,
      then clears the keys and remembers whether the database now holds something
      a later call must clear. */
  function SendData(k: Keycode, resetModifiers: bool, passModifiers: bool): (r: Step)
    requires KeysShape(k)
    ensures KeysShape(r.keycode)
    ensures r.keycode.buffer == k.buffer && r.keycode.keyMapDbIndex == k.keyMapDbIndex
    ensures !SendActs(k, passModifiers) ==> r == Step(k, [])
    ensures SendActs(k, passModifiers) ==>
      && r.calls == [SetKeyStrokeBufferKeys(k.keyMapDbIndex, k.currentModifiers, PendingKeys(k))]
      && PendingKeys(r.keycode) == []
      && (r.keycode.currentDbHasData <==> PendingKeys(k) != [] || passModifiers)
      && r.keycode.currentModifiers == (if resetModifiers then 0 else k.currentModifiers)
  {
    if SendActs(k, passModifiers) then
      var call := SetKeyStrokeBufferKeys(k.keyMapDbIndex, k.currentModifiers, PendingKeys(k));
      var cleared := k.(
        currentDbHasData := k.currentNumberOfKeys > 0 || passModifiers,
        currentKeys := NoKeys,
        currentNumberOfKeys := 0,
        currentModifiers := if resetModifiers then 0 else k.currentModifiers);
      Step(cleared, [call])
    else
      Step(k, [])
  }

  /** A report of keys is always followed by one empty report that clears it from the
      database, after which SendData is quiet until something new arrives. */
  lemma SendDataSettles(k: Keycode, resetModifiers: bool)
    requires KeysShape(k)
    ensures var first := SendData(k, resetModifiers, false);
      var second := SendData(first.keycode, resetModifiers, false);
      && (second.calls != [] <==> PendingKeys(k) != [])
      && (second.calls != [] ==> second.calls[0].keys == [])
      && SendData(second.keycode, resetModifiers, false).calls == []
  {
  }

  /** The flush that precedes an insert: once when a key is already pending, and
      once when the new key repeats a pending one. */
  function FlushBeforeInsert(k: Keycode, key: AppleKey): (r: Step)
    requires KeysShape(k)
    ensures KeysShape(r.keycode)
    ensures r.keycode.buffer == k.buffer && r.keycode.currentModifiers == k.currentModifiers
    ensures k.currentNumberOfKeys == 1 || key in PendingKeys(k) ==>
      && PendingKeys(r.keycode) == []
      && r.calls == [SetKeyStrokeBufferKeys(k.keyMapDbIndex, k.currentModifiers, PendingKeys(k))]
    ensures !(k.currentNumberOfKeys == 1 || key in PendingKeys(k)) ==> r == Step(k, [])
  {
    var first := if k.currentNumberOfKeys == 1 then SendData(k, false, false) else Step(k, []);
    if key in PendingKeys(first.keycode) then
      var s := SendData(first.keycode, false, false);
      Step(s.keycode, first.calls + s.calls)
    else first
  }

  /** AmiShimKeycodeInsertKey: flushes the pending keys when one is already pending
      or when the new key repeats a pending one, then appends the key. */
  function InsertKey(k: Keycode, usbKey: UsbCode): (r: Step)
    requires KeysShape(k) && k.currentNumberOfKeys < MaxKeyNum
    ensures KeysShape(r.keycode)
    ensures r.keycode.buffer == k.buffer && r.keycode.currentModifiers == k.currentModifiers
    ensures var key := KbKpUsage(usbKey);
      var flushed := k.currentNumberOfKeys == 1 || key in PendingKeys(k);
      && PendingKeys(r.keycode) == (if flushed then [] else PendingKeys(k)) + [key]
      && r.calls == (if flushed then [SetKeyStrokeBufferKeys(k.keyMapDbIndex, k.currentModifiers, PendingKeys(k))] else [])
  {
    var key := KbKpUsage(usbKey);
    var flushed := FlushBeforeInsert(k, key);
    var n := flushed.keycode.currentNumberOfKeys;
    var appended := flushed.keycode.(currentKeys := flushed.keycode.currentKeys[n := key], currentNumberOfKeys := n + 1);
    assert PendingKeys(appended) == PendingKeys(flushed.keycode) + [key];
    Step(appended, flushed.calls)
  }

  /** At most one key is ever pending: InsertKey keeps the count at one. */
  lemma InsertKeyKeepsOnePending(k: Keycode, usbKey: UsbCode)
    requires KeysShape(k) && k.currentNumberOfKeys <= 1
    ensures PendingKeys(InsertKey(k, usbKey).keycode) == [KbKpUsage(usbKey)]
  {
  }

  /** The shim's modifier translation as written: the left-shift flag reports the
      right-shift entry of the remap. */
  function TranslateModifiersAsWritten(remap: Remap, state: ShiftState): (r: ModifierMap)
    ensures !StateValid(state) ==> r == 0
  {
    if !StateValid(state) then 0
    else
      Contribution(remap, state, RightShift) |
      (if Pressed(state, LeftShift) then remap[RightShift] else 0) |
      Contribution(remap, state, RightControl) | Contribution(remap, state, LeftControl) |
      Contribution(remap, state, RightAlt) | Contribution(remap, state, LeftAlt) |
      Contribution(remap, state, RightGui) | Contribution(remap, state, LeftGui)
  }

  /** With the driver's remap, a lone left shift is reported as the right shift and
      the left-shift bit can never be reported; the per-flag translation gives the
      left-shift bit. */
  lemma LeftShiftReportedAsRightShift()
    ensures TranslateModifiersAsWritten(AmiShim.ConfigureModifierMap(), ShiftStateValid | 0x2) == HidRightShift
    ensures TranslateModifiers(AmiShim.ConfigureModifierMap(), ShiftStateValid | 0x2) == HidLeftShift
    ensures forall state :: TranslateModifiersAsWritten(AmiShim.ConfigureModifierMap(), state) & HidLeftShift == 0
  {
    var remap := AmiShim.ConfigureModifierMap();
    assert remap == AmiShim.SwappedRemap;
  }

  /** AmiShimKeycodeTranslateModifiers, with each flag reporting its own entry: when
      the translated modifiers differ from the current ones, the pending keys are
      flushed (with the new modifiers only when passing them on) and the new
      modifiers become current. */
  function UpdateModifiers(k: Keycode, remap: Remap, state: ShiftState, passModifiers: bool): (r: Step)
    requires KeysShape(k)
    ensures KeysShape(r.keycode) && r.keycode.buffer == k.buffer
    ensures r.keycode.currentModifiers == TranslateModifiers(remap, state)
    ensures TranslateModifiers(remap, state) == k.currentModifiers ==> r == Step(k, [])
    ensures var m := TranslateModifiers(remap, state);
      m != k.currentModifiers ==>
        && PendingKeys(r.keycode) == []
        && r.calls == (if SendActs(k, passModifiers)
                       then [SetKeyStrokeBufferKeys(k.keyMapDbIndex, if passModifiers then m else k.currentModifiers, PendingKeys(k))]
                       else [])
  {
    var m := TranslateModifiers(remap, state);
    if m == k.currentModifiers then Step(k, [])
    else
      var before := if passModifiers then k.(currentModifiers := m) else k;
      var sent := SendData(before, true, passModifiers);
      Step(sent.keycode.(currentModifiers := m), sent.calls)
  }

  /** The key a usable, mapped scan code stands for, after the numpad fix. */
  function TranslatedKey(d: AmiKeyData): AppleKey
    requires Ps2Map.Usable(d)
  {
    KbKpUsage(UpdateNumpad(Ps2Map.Ps2Entry(d.ps2ScanCode).usbCode, d.efiKey))
  }

  datatype Appended = Appended(status: Status, step: Step)

  /** AmiShimKeycodeAppendData: a mapped scan code updates the modifiers and inserts
      its key; an unmapped one is ignored; key data without a usable scan code only
      updates the modifiers, passing them on. */
  function AppendData(k: Keycode, remap: Remap, keyData: Option<AmiKeyData>): (r: Appended)
    requires Inv(k)
    ensures Inv(r.step.keycode) && r.step.keycode.buffer == k.buffer
    ensures r.status == (if keyData.None? then InvalidParameter else Success)
    ensures keyData.None? ==> r.step == Step(k, [])
    ensures keyData.Some? && Ps2Map.Usable(keyData.value) && Ps2Map.Ps2Entry(keyData.value.ps2ScanCode).usbCode == 0 ==>
      r.step == Step(k, [])
    ensures keyData.Some? && Ps2Map.Usable(keyData.value) && Ps2Map.Ps2Entry(keyData.value.ps2ScanCode).usbCode != 0 ==>
      && PendingKeys(r.step.keycode) == [TranslatedKey(keyData.value)]
      && r.step.keycode.currentModifiers == TranslateModifiers(remap, keyData.value.keyShiftState)
    ensures keyData.Some? && !Ps2Map.Usable(keyData.value) ==>
      r.step == UpdateModifiers(k, remap, keyData.value.keyShiftState, true)
  {
    match keyData
    case None => Appended(InvalidParameter, Step(k, []))
    case Some(d) =>
      if Ps2Map.Usable(d) then
        var entry := Ps2Map.Ps2Entry(d.ps2ScanCode);
        if entry.usbCode != 0 then
          var modifiers := UpdateModifiers(k, remap, d.keyShiftState, false);
          var inserted := InsertKey(modifiers.keycode, UpdateNumpad(entry.usbCode, d.efiKey));
          Appended(Success, Step(inserted.keycode, modifiers.calls + inserted.calls))
        else
          Appended(Success, Step(k, []))
      else
        Appended(Success, UpdateModifiers(k, remap, d.keyShiftState, true))
  }

  function Protocols(keycodes: seq<Keycode>): (p: seq<nat>)
    ensures |p| == |keycodes| && forall i :: 0 <= i < |keycodes| ==> p[i] == keycodes[i].protocol
  {
    seq(|keycodes|, i requires 0 <= i < |keycodes| => keycodes[i].protocol)
  }

  /** The first instance whose protocol is `thisProtocol`, for a non-NULL `thisProtocol`. */
  function FindProtocol(keycodes: seq<Keycode>, thisProtocol: nat): (r: Option<nat>)
    ensures r.None? <==> thisProtocol == 0 || forall i :: 0 <= i < |keycodes| ==> keycodes[i].protocol != thisProtocol
    ensures r.Some? ==>
      && r.value < |keycodes| && keycodes[r.value].protocol == thisProtocol
      && forall j :: 0 <= j < r.value ==> keycodes[j].protocol != thisProtocol
  {
    if thisProtocol == 0 then None else ShimSlots.FindFirst(Protocols(keycodes), thisProtocol, 0)
  }

  /** What one read does to the slot it is served from. */
  datatype SlotRead = SlotRead(status: Status, keyData: Option<AmiKeyData>, keycode: Keycode, calls: seq<DbCall>)

  /** The read on the slot found for the protocol: outside the shim's own polling a
      key saved in the ring is served first; otherwise the original routine runs (its
      status and key are inputs here). A key it returns is translated and, during the
      shim's polling, saved in the ring; EFI_NOT_READY flushes the pending keys. */
  function ReadSlot(k: Keycode, remap: Remap, originalStatus: Status, originalKey: AmiKeyData): (r: SlotRead)
    requires Inv(k)
    ensures Inv(r.keycode)
    ensures !k.performingManualPoll && Contents(k.buffer) != [] ==>
      && r.status == Success && r.keyData == Some(Contents(k.buffer)[0]) && r.calls == []
      && Contents(r.keycode.buffer) == Contents(k.buffer)[1..]
    ensures k.performingManualPoll || Contents(k.buffer) == [] ==>
      && r.status == originalStatus
      && (originalStatus == Success ==>
            && r.keyData == Some(originalKey)
            && r.keycode.buffer == (if k.performingManualPoll then WriteKeysBuffer(k.buffer, originalKey) else k.buffer))
      && (originalStatus == NotReady ==> Step(r.keycode, r.calls) == SendData(k, true, false))
      && (originalStatus != Success && originalStatus != NotReady ==> r == SlotRead(originalStatus, None, k, []))
  {
    if !k.performingManualPoll && k.buffer.size > 0 then
      var read := ReadKeysBuffer(k.buffer);
      SlotRead(Success, read.0, k.(buffer := read.1), [])
    else if originalStatus == Success then
      var appended := AppendData(k, remap, Some(originalKey));
      var saved := appended.step.keycode;
      var kept := if k.performingManualPoll then saved.(buffer := WriteKeysBuffer(saved.buffer, originalKey)) else saved;
      SlotRead(Success, Some(originalKey), kept, appended.step.calls)
    else if originalStatus == NotReady then
      var sent := SendData(k, true, false);
      SlotRead(NotReady, None, sent.keycode, sent.calls)
    else
      SlotRead(originalStatus, None, k, [])
  }

  datatype ReadResult = ReadResult(status: Status, keyData: Option<AmiKeyData>, keycodes: seq<Keycode>, calls: seq<DbCall>)

  predicate AllInv(keycodes: seq<Keycode>) {
    forall i :: 0 <= i < |keycodes| ==> Inv(keycodes[i])
  }

  /** AmiShimKeycodeReadEfikey: an unknown protocol is rejected; otherwise only the
      slot of the first instance owning the protocol takes part in the read. */
  function ReadEfikey(keycodes: seq<Keycode>, remap: Remap, thisProtocol: nat, originalStatus: Status, originalKey: AmiKeyData): (r: ReadResult)
    requires |keycodes| == MaxKeycodes && AllInv(keycodes)
    ensures |r.keycodes| == MaxKeycodes && AllInv(r.keycodes)
    ensures FindProtocol(keycodes, thisProtocol).None? ==> r == ReadResult(InvalidParameter, None, keycodes, [])
    ensures FindProtocol(keycodes, thisProtocol).Some? ==>
      var i := FindProtocol(keycodes, thisProtocol).value;
      var slot := ReadSlot(keycodes[i], remap, originalStatus, originalKey);
      && (forall j :: 0 <= j < MaxKeycodes && j != i ==> r.keycodes[j] == keycodes[j])
      && r == ReadResult(slot.status, slot.keyData, keycodes[i := slot.keycode], slot.calls)
  {
    match FindProtocol(keycodes, thisProtocol)
    case None => ReadResult(InvalidParameter, None, keycodes, [])
    case Some(i) =>
      var slot := ReadSlot(keycodes[i], remap, originalStatus, originalKey);
      ReadResult(slot.status, slot.keyData, keycodes[i := slot.keycode], slot.calls)
  }

  function Handles(keycodes: seq<Keycode>): seq<nat> {
    ShimSlots.HandlesOf(keycodes, (k: Keycode) => k.deviceHandle)
  }

  /** The slot after a successful install: the handle, the protocol and the database
      buffer index are recorded, the ring is reset, and the routine found in the
      protocol is kept as the original unless it already is the shim's hook. */
  function Installed(k: Keycode, deviceHandle: nat, efiKeycode: nat, current: ReadEfikeyRoutine, dbIndex: nat): Keycode
    requires |k.buffer.slots| == MaxKeyBufferSize
  {
    k.(deviceHandle := deviceHandle, protocol := efiKeycode, keyMapDbIndex := dbIndex,
       originalReadEfikey := if current == ShimReadEfikey then None else Some(current),
       buffer := InitKeysBuffer(k.buffer))
  }

  /** AmiShimKeycodeInstallOnHandle. `current` is the protocol's ReadEfikey before the
      call; CreateKeyStrokesBuffer's status and buffer index are inputs. */
  method InstallOnHandle(keycodes: seq<Keycode>, deviceHandle: nat, efiKeycode: nat, current: ReadEfikeyRoutine,
                         createStatus: Status, createdIndex: nat)
    returns (status: Status, r: seq<Keycode>, readEfikey: ReadEfikeyRoutine)
    requires |keycodes| == MaxKeycodes && forall i :: 0 <= i < MaxKeycodes ==> |keycodes[i].buffer.slots| == MaxKeyBufferSize
    ensures (exists j: nat :: ShimSlots.Duplicate(Handles(keycodes), deviceHandle, j)) ==>
      status == AlreadyStarted && r == keycodes && readEfikey == current
    ensures
      && (forall j: nat :: !ShimSlots.Duplicate(Handles(keycodes), deviceHandle, j))
      && (forall i :: 0 <= i < MaxKeycodes ==> keycodes[i].deviceHandle != 0)
      ==> status == OutOfResources && r == keycodes && readEfikey == current
    ensures status != Success ==> r == keycodes && readEfikey == current
    ensures status == Success ==>
      && readEfikey == ShimReadEfikey
      && exists i: nat :: ShimSlots.FirstFree(Handles(keycodes), i) &&
           r == keycodes[i := Installed(keycodes[i], deviceHandle, efiKeycode, current, createdIndex)]
    ensures
      && (forall j: nat :: !ShimSlots.Duplicate(Handles(keycodes), deviceHandle, j))
      && (exists i :: 0 <= i < MaxKeycodes && keycodes[i].deviceHandle == 0)
      ==> status == (if IsError(createStatus) then createStatus else Success)
  {
    var claim := ShimSlots.ClaimSlot(Handles(keycodes), deviceHandle);
    match claim
    case AlreadyStarted =>
      return AlreadyStarted, keycodes, current;
    case NoFreeSlot =>
      return OutOfResources, keycodes, current;
    case Claimed(i) =>
      if IsError(createStatus) {
        return createStatus, keycodes, current;
      }
      return Success, keycodes[i := Installed(keycodes[i], deviceHandle, efiKeycode, current, createdIndex)], ShimReadEfikey;
  }

  /** An installed slot never records the hook as its own original, so reading a key
      never loops back into the shim. */
  lemma InstalledNeverDoubleHooks(k: Keycode, deviceHandle: nat, efiKeycode: nat, current: ReadEfikeyRoutine, dbIndex: nat)
    requires |k.buffer.slots| == MaxKeyBufferSize
    ensures var s := Installed(k, deviceHandle, efiKeycode, current, dbIndex);
      && s.originalReadEfikey != Some(ShimReadEfikey)
      && (s.originalReadEfikey.None? <==> current == ShimReadEfikey)
      && Contents(s.buffer) == []
  {
  }
}
