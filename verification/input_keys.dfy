/** Keyboard vocabulary shared by the AMI input shims: the EFI shift-state flags
    (section 12.2 of the UEFI Specification), the USB HID modifier bits (section 8.3
    of the Device Class Definition for HID 1.11), the eight-entry modifier remap,
    keypad digit usages and Apple key codes. */
module InputKeys {
  import opened Types

  /** EFI_KEY_STATE.KeyShiftState. */
  type ShiftState = bv32

  const ShiftStateValid: ShiftState := 0x8000_0000

  /** Index of a modifier in the shims' remap order: right shift, left shift, right
      control, left control, right alt, left alt, right GUI, left GUI. */
  type ModifierIndex = i: nat | i < 8

  const RightShift: ModifierIndex := 0
  const LeftShift: ModifierIndex := 1
  const RightControl: ModifierIndex := 2
  const LeftControl: ModifierIndex := 3
  const RightAlt: ModifierIndex := 4
  const LeftAlt: ModifierIndex := 5
  const RightGui: ModifierIndex := 6
  const LeftGui: ModifierIndex := 7

  /** The EFI "pressed" flag of each modifier, in remap order (RIGHT_SHIFT, LEFT_SHIFT,
      RIGHT_CONTROL, LEFT_CONTROL, RIGHT_ALT, LEFT_ALT, RIGHT_LOGO, LEFT_LOGO). */
  const ShiftStateBits: seq<ShiftState> := [0x1, 0x2, 0x4, 0x8, 0x10, 0x20, 0x40, 0x80]

  /** The modifier byte of a HID keyboard report. */
  type ModifierMap = bv8

  const HidLeftControl: ModifierMap := 0x01
  const HidLeftShift: ModifierMap := 0x02
  const HidLeftAlt: ModifierMap := 0x04
  const HidLeftGui: ModifierMap := 0x08
  const HidRightControl: ModifierMap := 0x10
  const HidRightShift: ModifierMap := 0x20
  const HidRightAlt: ModifierMap := 0x40
  const HidRightGui: ModifierMap := 0x80

  /** USB_HID_KB_KP_MODIFIERS_SHIFT: either shift key. */
  const HidModifiersShift: ModifierMap := 0x22

  /** The HID bit of each modifier, in remap order. */
  const DefaultModifierMap: seq<ModifierMap> :=
    [HidRightShift, HidLeftShift, HidRightControl, HidLeftControl,
     HidRightAlt, HidLeftAlt, HidRightGui, HidLeftGui]

  /** What each EFI modifier flag is reported as. */
  type Remap = s: seq<ModifierMap> | |s| == 8 witness [0, 0, 0, 0, 0, 0, 0, 0]

  /** A remap configuration lists, for each of the four modifier pairs in turn, the
      right-hand member of the pair whose two default bits it takes over. */
  predicate ValidConfig(config: seq<nat>) {
    |config| == 4 && forall k :: 0 <= k < 4 ==> config[k] % 2 == 0 && config[k] < 8
  }

  /** The remap configuration loop shared by both shims: pair k takes the default bits
      of the pair `config[k]` names, right member first. */
  function ConfigureRemap(config: seq<nat>): Remap
    requires ValidConfig(config)
  {
    [DefaultModifierMap[config[0]], DefaultModifierMap[config[0] + 1],
     DefaultModifierMap[config[1]], DefaultModifierMap[config[1] + 1],
     DefaultModifierMap[config[2]], DefaultModifierMap[config[2] + 1],
     DefaultModifierMap[config[3]], DefaultModifierMap[config[3] + 1]]
  }

  predicate Pressed(state: ShiftState, i: ModifierIndex) {
    state & ShiftStateBits[i] != 0
  }

  predicate StateValid(state: ShiftState) {
    state & ShiftStateValid != 0
  }

  /** What modifier `i` adds to the report. */
  function Contribution(remap: Remap, state: ShiftState, i: ModifierIndex): ModifierMap {
    if Pressed(state, i) then remap[i] else 0
  }

  /** Modifier translation with every flag reporting its own remap entry; nothing is
      reported unless the state is marked valid. */
  function TranslateModifiers(remap: Remap, state: ShiftState): (r: ModifierMap)
    ensures !StateValid(state) ==> r == 0
    ensures forall i: ModifierIndex :: StateValid(state) && Pressed(state, i) ==> r & remap[i] == remap[i]
  {
    if !StateValid(state) then 0
    else
      Contribution(remap, state, 0) | Contribution(remap, state, 1) |
      Contribution(remap, state, 2) | Contribution(remap, state, 3) |
      Contribution(remap, state, 4) | Contribution(remap, state, 5) |
      Contribution(remap, state, 6) | Contribution(remap, state, 7)
  }

  /** The report is exact: entry `i` of the remap shows in the result iff the state
      is valid and modifier `i` is pressed. */
  predicate ReportsExactly(remap: Remap, state: ShiftState, r: ModifierMap) {
    forall i: ModifierIndex :: r & remap[i] != 0 <==> StateValid(state) && Pressed(state, i)
  }

  /** Every entry of the remap is set and shares no bit with any other entry. */
  predicate DisjointEntries(remap: Remap) {
    && (forall i: ModifierIndex :: remap[i] != 0)
    && forall i: ModifierIndex, j: ModifierIndex :: i != j ==> remap[j] & remap[i] == 0
  }

  /** A remap of disjoint entries gives an exact report. */
  lemma DisjointRemapExact(remap: Remap, state: ShiftState)
    requires DisjointEntries(remap)
    ensures ReportsExactly(remap, state, TranslateModifiers(remap, state))
  {
    forall i: ModifierIndex
      ensures TranslateModifiers(remap, state) & remap[i] != 0 <==> StateValid(state) && Pressed(state, i)
    {
      ContributionExact(remap, state, i);
    }
  }

  /** One modifier of an exact report: when entry `i` is nonzero and shares no bit
      with any other entry, it shows in the result iff modifier `i` is pressed. */
  lemma ContributionExact(remap: Remap, state: ShiftState, i: ModifierIndex)
    requires remap[i] != 0
    requires forall j: ModifierIndex :: j != i ==> remap[j] & remap[i] == 0
    ensures TranslateModifiers(remap, state) & remap[i] != 0 <==> StateValid(state) && Pressed(state, i)
  {
  }

  /** With the default bits as the remap, every pressed modifier reports its own HID
      bit and nothing else shows. */
  lemma DefaultRemapExact(state: ShiftState)
    ensures ReportsExactly(DefaultModifierMap, state, TranslateModifiers(DefaultModifierMap, state))
  {
    DisjointRemapExact(DefaultModifierMap, state);
  }

  /** EFI_KEY, the physical key position in the EFI_KEY enumeration of the UEFI
      Specification's HII keyboard layout. Only the digit row matters here. */
  type EfiKey = nat

  const EfiKeyZero: EfiKey := 11
  const EfiKeyOne: EfiKey := 28
  const EfiKeyTwo: EfiKey := 29
  const EfiKeyThree: EfiKey := 30
  const EfiKeyFour: EfiKey := 44
  const EfiKeyFive: EfiKey := 45
  const EfiKeySix: EfiKey := 46
  const EfiKeySeven: EfiKey := 65
  const EfiKeyEight: EfiKey := 66
  const EfiKeyNine: EfiKey := 67

  type Digit = d: nat | d < 10

  /** The digit an EFI key position carries, if it is one of EfiKeyZero..EfiKeyNine. */
  function DigitOfKey(key: EfiKey): Option<Digit> {
    if key == EfiKeyZero then Some(0)
    else if key == EfiKeyOne then Some(1)
    else if key == EfiKeyTwo then Some(2)
    else if key == EfiKeyThree then Some(3)
    else if key == EfiKeyFour then Some(4)
    else if key == EfiKeyFive then Some(5)
    else if key == EfiKeySix then Some(6)
    else if key == EfiKeySeven then Some(7)
    else if key == EfiKeyEight then Some(8)
    else if key == EfiKeyNine then Some(9)
    else None
  }

  type UsbCode = u: nat | u < 0x100

  const KeypadOneUsage: UsbCode := 0x59
  const KeypadZeroUsage: UsbCode := 0x62

  /** The Keyboard/Keypad usage of a keypad digit (section 10 of the USB HID Usage
      Tables): 1 to 9 are 0x59 to 0x61, 0 is 0x62. */
  function KeypadUsage(d: Digit): (u: UsbCode)
    ensures KeypadOneUsage <= u <= KeypadZeroUsage
  {
    if d == 0 then KeypadZeroUsage else KeypadOneUsage + d - 1
  }

  /** The digit a keypad usage stands for, if it is one. */
  function KeypadDigit(u: UsbCode): (r: Option<Digit>)
    ensures r.Some? <==> KeypadOneUsage <= u <= KeypadZeroUsage
  {
    if u == KeypadZeroUsage then Some(0)
    else if KeypadOneUsage <= u < KeypadZeroUsage then Some(u - KeypadOneUsage + 1)
    else None
  }

  /** Digit usages and digits are in one-to-one correspondence. */
  lemma KeypadRoundTrip(d: Digit, u: UsbCode)
    ensures KeypadDigit(KeypadUsage(d)) == Some(d)
    ensures KeypadDigit(u) == Some(d) ==> KeypadUsage(d) == u
  {
  }

  /** The numpad fix: a digit key is reported as its keypad usage whatever the PS/2
      table said; any other key keeps its usage. */
  function UpdateNumpad(usb: UsbCode, key: EfiKey): (r: UsbCode)
    ensures DigitOfKey(key).None? ==> r == usb
    ensures DigitOfKey(key).Some? ==> KeypadDigit(r) == DigitOfKey(key)
  {
    match DigitOfKey(key)
    case Some(d) => KeypadRoundTrip(d, usb); KeypadUsage(d)
    case None => usb
  }

  /** APPLE_KEY_CODE: the zero code that clears a key slot, UsbHidUndefined, or a
      Keyboard/Keypad page usage. */
  datatype AppleKey = NoKey | UsbHidUndefined | KbKpUsage(usage: UsbCode)

  /** AMI_EFI_KEY_DATA, the fields the shims read. */
  datatype AmiKeyData = AmiKeyData(
    keyShiftState: ShiftState,
    efiKey: EfiKey,
    ps2ScanCode: nat,
    ps2ScanCodeIsValid: nat)
}
