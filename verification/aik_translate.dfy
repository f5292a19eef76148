/** The AptioInputFix keycode translator: it turns an AMI key report into the Apple
    modifier byte and key code, with the remap it configures for itself. */
module AikTranslate {
  import opened Types
  import opened InputKeys
  import Ps2Map
  import AmiShimKeycode

  /** The translator's configuration: every pair keeps its own bits. */
  const AikModifierConfig: seq<nat> := [RightShift, RightControl, RightAlt, RightGui]

  /** AIKTranslateConfigure: the remap is the default one, so each EFI modifier is
      reported as its own HID bit. */
  function AikTranslateConfigure(): (r: Remap)
    ensures forall i: ModifierIndex :: r[i] == DefaultModifierMap[i]
  {
    ConfigureRemap(AikModifierConfig)
  }

  /** AIKTranslate: the modifiers under `remap` and the key a usable, mapped scan code
      stands for after the numpad fix; anything else is UsbHidUndefined. */
  function Translate(remap: Remap, keyData: AmiKeyData): (r: (ModifierMap, AppleKey))
    ensures r.0 == TranslateModifiers(remap, keyData.keyShiftState)
    ensures !Ps2Map.Usable(keyData) ==> r.1 == UsbHidUndefined
    ensures Ps2Map.Usable(keyData) ==>
      var usb := Ps2Map.AikPs2Entry(keyData.ps2ScanCode).usbCode;
      && (usb == 0 ==> r.1 == UsbHidUndefined)
      && (usb != 0 ==> r.1.KbKpUsage?)
      && (usb != 0 && DigitOfKey(keyData.efiKey).None? ==> r.1 == KbKpUsage(usb))
      && (usb != 0 && DigitOfKey(keyData.efiKey).Some? ==> KeypadDigit(r.1.usage) == DigitOfKey(keyData.efiKey))
  {
    var modifiers := TranslateModifiers(remap, keyData.keyShiftState);
    if Ps2Map.Usable(keyData) then
      var entry := Ps2Map.AikPs2Entry(keyData.ps2ScanCode);
      if entry.usbCode != 0 then (modifiers, KbKpUsage(UpdateNumpad(entry.usbCode, keyData.efiKey)))
      else (modifiers, UsbHidUndefined)
    else (modifiers, UsbHidUndefined)
  }

  /** With its own configuration the translator reports every pressed modifier as its
      own HID bit and nothing else. */
  lemma ConfiguredTranslateExact(keyData: AmiKeyData)
    ensures ReportsExactly(DefaultModifierMap, keyData.keyShiftState,
                           Translate(AikTranslateConfigure(), keyData).0)
  {
    assert AikTranslateConfigure() == DefaultModifierMap;
    DefaultRemapExact(keyData.keyShiftState);
  }

  /** The translator and the keycode shim read the same key from a usable, mapped
      scan code: both tables agree and both apply the same numpad fix. */
  lemma AgreesWithKeycodeShim(remap: Remap, keyData: AmiKeyData)
    requires Ps2Map.Usable(keyData) && Ps2Map.Ps2Entry(keyData.ps2ScanCode).usbCode != 0
    ensures Translate(remap, keyData).1 == AmiShimKeycode.TranslatedKey(keyData)
  {
    Ps2Map.TablesIdentical();
    assert Ps2Map.AikPs2ToUsbMap[keyData.ps2ScanCode] == Ps2Map.Ps2ToUsbMap[keyData.ps2ScanCode];
  }
}
