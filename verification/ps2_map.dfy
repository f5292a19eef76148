/** The PS/2 scan code set 1 to USB HID Keyboard/Keypad usage tables (section 10 of
    the USB HID Usage Tables). Both input drivers carry a copy, indexed by the scan
    code; each entry also names the key and its shifted form for logging. */
module Ps2Map {
  import opened Types
  import opened InputKeys

  /** MAX_PS2_NUM / AIK_MAX_PS2_NUM. */
  const MaxPs2Num: nat := 128

  datatype Ps2ToUsb = Ps2ToUsb(usbCode: UsbCode, keyName: Option<string>, shiftKeyName: Option<string>)

  /** A scan code with no USB usage. */
  const Unmapped := Ps2ToUsb(0, None, None)

  /** Key data whose PS/2 scan code is flagged valid and lies inside the tables. */
  predicate Usable(d: AmiKeyData) {
    d.ps2ScanCodeIsValid == 1 && d.ps2ScanCode < MaxPs2Num
  }

  /** gPs2ToUsbMap, used by the AMI keycode shim. */
  const Ps2ToUsbMap: seq<Ps2ToUsb> := seq(MaxPs2Num, code requires 0 <= code < MaxPs2Num => Ps2Entry(code))

  /** gAikPs2ToUsbMap, used by AIKTranslate. */
  const AikPs2ToUsbMap: seq<Ps2ToUsb> := seq(MaxPs2Num, code requires 0 <= code < MaxPs2Num => AikPs2Entry(code))

  /** Entry `code` of gPs2ToUsbMap. */
  function Ps2Entry(code: nat): Ps2ToUsb
    requires code < MaxPs2Num
  {
    match code
    case 0x00 => Unmapped
    case 0x01 => Ps2ToUsb(0x29, Some("Esc"), Some("^ Esc ^"))
    case 0x02 => Ps2ToUsb(0x1E, Some("1"), Some("!"))
    case 0x03 => Ps2ToUsb(0x1F, Some("2"), Some("@"))
    case 0x04 => Ps2ToUsb(0x20, Some("3"), Some("#"))
    case 0x05 => Ps2ToUsb(0x21, Some("4"), Some("$"))
    case 0x06 => Ps2ToUsb(0x22, Some("5"), Some("%"))
    case 0x07 => Ps2ToUsb(0x23, Some("6"), Some("^"))
    case 0x08 => Ps2ToUsb(0x24, Some("7"), Some("&"))
    case 0x09 => Ps2ToUsb(0x25, Some("8"), Some("*"))
    case 0x0A => Ps2ToUsb(0x26, Some("9"), Some("("))
    case 0x0B => Ps2ToUsb(0x27, Some("0"), Some(")"))
    case 0x0C => Ps2ToUsb(0x2D, Some("-"), Some("_"))
    case 0x0D => Ps2ToUsb(0x2E, Some("="), Some("+"))
    case 0x0E => Ps2ToUsb(0x2A, Some("Backspace"), Some("^ Backspace ^"))
    case 0x0F => Ps2ToUsb(0x2B, Some("Tab"), Some("^ Tab ^"))
    case 0x10 => Ps2ToUsb(0x14, Some("q"), Some("Q"))
    case 0x11 => Ps2ToUsb(0x1A, Some("w"), Some("W"))
    case 0x12 => Ps2ToUsb(0x08, Some("e"), Some("E"))
    case 0x13 => Ps2ToUsb(0x15, Some("r"), Some("R"))
    case 0x14 => Ps2ToUsb(0x17, Some("t"), Some("T"))
    case 0x15 => Ps2ToUsb(0x1C, Some("y"), Some("Y"))
    case 0x16 => Ps2ToUsb(0x18, Some("u"), Some("U"))
    case 0x17 => Ps2ToUsb(0x0C, Some("i"), Some("I"))
    case 0x18 => Ps2ToUsb(0x12, Some("o"), Some("O"))
    case 0x19 => Ps2ToUsb(0x13, Some("p"), Some("P"))
    case 0x1A => Ps2ToUsb(0x2F, Some("["), Some("{"))
    case 0x1B => Ps2ToUsb(0x30, Some("]"), Some("}"))
    case 0x1C => Ps2ToUsb(0x28, Some("Enter"), Some("^ Enter ^"))
    case 0x1D => Unmapped
    case 0x1E => Ps2ToUsb(0x04, Some("a"), Some("A"))
    case 0x1F => Ps2ToUsb(0x16, Some("s"), Some("S"))
    case 0x20 => Ps2ToUsb(0x07, Some("d"), Some("D"))
    case 0x21 => Ps2ToUsb(0x09, Some("f"), Some("F"))
    case 0x22 => Ps2ToUsb(0x0A, Some("g"), Some("G"))
    case 0x23 => Ps2ToUsb(0x0B, Some("h"), Some("H"))
    case 0x24 => Ps2ToUsb(0x0D, Some("j"), Some("J"))
    case 0x25 => Ps2ToUsb(0x0E, Some("k"), Some("K"))
    case 0x26 => Ps2ToUsb(0x0F, Some("l"), Some("L"))
    case 0x27 => Ps2ToUsb(0x33, Some(";"), Some(":"))
    case 0x28 => Ps2ToUsb(0x34, Some("'"), Some("\""))
    case 0x29 => Ps2ToUsb(0x35, Some("`"), Some("~"))
    case 0x2A => Unmapped
    case 0x2B => Ps2ToUsb(0x31, Some("\\"), Some("|"))
    case 0x2C => Ps2ToUsb(0x1D, Some("z"), Some("Z"))
    case 0x2D => Ps2ToUsb(0x1B, Some("x"), Some("X"))
    case 0x2E => Ps2ToUsb(0x06, Some("c"), Some("C"))
    case 0x2F => Ps2ToUsb(0x19, Some("v"), Some("V"))
    case 0x30 => Ps2ToUsb(0x05, Some("b"), Some("B"))
    case 0x31 => Ps2ToUsb(0x11, Some("n"), Some("N"))
    case 0x32 => Ps2ToUsb(0x10, Some("m"), Some("M"))
    case 0x33 => Ps2ToUsb(0x36, Some(","), Some("<"))
    case 0x34 => Ps2ToUsb(0x37, Some("."), Some(">"))
    case 0x35 => Ps2ToUsb(0x38, Some("/"), Some("?"))
    case 0x36 => Unmapped
    case 0x37 => Ps2ToUsb(0x55, Some("*"), Some("^ * ^"))
    case 0x38 => Unmapped
    case 0x39 => Ps2ToUsb(0x2C, Some("Spacebar"), Some("^ Spacebar ^"))
    case 0x3A => Ps2ToUsb(0x39, Some("CapsLock"), Some("^ CapsLock ^"))
    case 0x3B => Ps2ToUsb(0x3A, Some("F1"), Some("^ F1 ^"))
    case 0x3C => Ps2ToUsb(0x3B, Some("F2"), Some("^ F2 ^"))
    case 0x3D => Ps2ToUsb(0x3C, Some("F3"), Some("^ F3 ^"))
    case 0x3E => Ps2ToUsb(0x3D, Some("F4"), Some("^ F4 ^"))
    case 0x3F => Ps2ToUsb(0x3E, Some("F5"), Some("^ F5 ^"))
    case 0x40 => Ps2ToUsb(0x3F, Some("F6"), Some("^ F6 ^"))
    case 0x41 => Ps2ToUsb(0x40, Some("F7"), Some("^ F7 ^"))
    case 0x42 => Ps2ToUsb(0x41, Some("F8"), Some("^ F8 ^"))
    case 0x43 => Ps2ToUsb(0x42, Some("F9"), Some("^ F9 ^"))
    case 0x44 => Ps2ToUsb(0x43, Some("F10"), Some("^ F10 ^"))
    case 0x45 => Ps2ToUsb(0x53, Some("NumLock"), Some("^ NumLock ^"))
    case 0x46 => Ps2ToUsb(0x47, Some("Scroll Lock"), Some("^ Scroll Lock ^"))
    case 0x47 => Ps2ToUsb(0x4A, Some("Home"), Some("^ Home ^"))
    case 0x48 => Ps2ToUsb(0x52, Some("Up"), Some("^ Up ^"))
    case 0x49 => Ps2ToUsb(0x4B, Some("PageUp"), Some("^ PageUp ^"))
    case 0x4A => Ps2ToUsb(0x56, Some("-"), Some("^ - ^"))
    case 0x4B => Ps2ToUsb(0x50, Some("Left"), Some("^ Left ^"))
    case 0x4C => Ps2ToUsb(0x5D, Some("5"), Some("^ 5 ^"))
    case 0x4D => Ps2ToUsb(0x4F, Some("Right"), Some("^ Right ^"))
    case 0x4E => Ps2ToUsb(0x57, Some("+"), Some("^ + ^"))
    case 0x4F => Ps2ToUsb(0x4D, Some("End"), Some("^ End ^"))
    case 0x50 => Ps2ToUsb(0x51, Some("Down"), Some("^ Down ^"))
    case 0x51 => Ps2ToUsb(0x4E, Some("PageDown"), Some("^ PageDown ^"))
    case 0x52 => Ps2ToUsb(0x49, Some("Insert"), Some("^ Insert ^"))
    case 0x53 => Ps2ToUsb(0x4C, Some("Delete"), Some("^ Delete ^"))
    case 0x54 => Unmapped
    case 0x55 => Unmapped
    case 0x56 => Unmapped
    case 0x57 => Ps2ToUsb(0x44, Some("F11"), Some("^ F11 ^"))
    case 0x58 => Ps2ToUsb(0x45, Some("F12"), Some("^ F12 ^"))
    case 0x59 => Unmapped
    case 0x5A => Unmapped
    case 0x5B => Unmapped
    case 0x5C => Unmapped
    case 0x5D => Unmapped
    case 0x5E => Unmapped
    case 0x5F => Unmapped
    case 0x60 => Unmapped
    case 0x61 => Unmapped
    case 0x62 => Unmapped
    case 0x63 => Unmapped
    case 0x64 => Unmapped
    case 0x65 => Unmapped
    case 0x66 => Unmapped
    case 0x67 => Unmapped
    case 0x68 => Unmapped
    case 0x69 => Unmapped
    case 0x6A => Unmapped
    case 0x6B => Unmapped
    case 0x6C => Unmapped
    case 0x6D => Unmapped
    case 0x6E => Unmapped
    case 0x6F => Unmapped
    case 0x70 => Unmapped
    case 0x71 => Unmapped
    case 0x72 => Unmapped
    case 0x73 => Unmapped
    case 0x74 => Unmapped
    case 0x75 => Unmapped
    case 0x76 => Unmapped
    case 0x77 => Unmapped
    case 0x78 => Unmapped
    case 0x79 => Unmapped
    case 0x7A => Unmapped
    case 0x7B => Unmapped
    case 0x7C => Unmapped
    case 0x7D => Unmapped
    case 0x7E => Unmapped
    case 0x7F => Unmapped
    case _ => assert false; Unmapped
  }

  /** Entry `code` of gAikPs2ToUsbMap. */
  function AikPs2Entry(code: nat): Ps2ToUsb
    requires code < MaxPs2Num
  {
    match code
    case 0x00 => Unmapped
    case 0x01 => Ps2ToUsb(0x29, Some("Esc"), Some("^ Esc ^"))
    case 0x02 => Ps2ToUsb(0x1E, Some("1"), Some("!"))
    case 0x03 => Ps2ToUsb(0x1F, Some("2"), Some("@"))
    case 0x04 => Ps2ToUsb(0x20, Some("3"), Some("#"))
    case 0x05 => Ps2ToUsb(0x21, Some("4"), Some("$"))
    case 0x06 => Ps2ToUsb(0x22, Some("5"), Some("%"))
    case 0x07 => Ps2ToUsb(0x23, Some("6"), Some("^"))
    case 0x08 => Ps2ToUsb(0x24, Some("7"), Some("&"))
    case 0x09 => Ps2ToUsb(0x25, Some("8"), Some("*"))
    case 0x0A => Ps2ToUsb(0x26, Some("9"), Some("("))
    case 0x0B => Ps2ToUsb(0x27, Some("0"), Some(")"))
    case 0x0C => Ps2ToUsb(0x2D, Some("-"), Some("_"))
    case 0x0D => Ps2ToUsb(0x2E, Some("="), Some("+"))
    case 0x0E => Ps2ToUsb(0x2A, Some("Backspace"), Some("^ Backspace ^"))
    case 0x0F => Ps2ToUsb(0x2B, Some("Tab"), Some("^ Tab ^"))
    case 0x10 => Ps2ToUsb(0x14, Some("q"), Some("Q"))
    case 0x11 => Ps2ToUsb(0x1A, Some("w"), Some("W"))
    case 0x12 => Ps2ToUsb(0x08, Some("e"), Some("E"))
    case 0x13 => Ps2ToUsb(0x15, Some("r"), Some("R"))
    case 0x14 => Ps2ToUsb(0x17, Some("t"), Some("T"))
    case 0x15 => Ps2ToUsb(0x1C, Some("y"), Some("Y"))
    case 0x16 => Ps2ToUsb(0x18, Some("u"), Some("U"))
    case 0x17 => Ps2ToUsb(0x0C, Some("i"), Some("I"))
    case 0x18 => Ps2ToUsb(0x12, Some("o"), Some("O"))
    case 0x19 => Ps2ToUsb(0x13, Some("p"), Some("P"))
    case 0x1A => Ps2ToUsb(0x2F, Some("["), Some("{"))
    case 0x1B => Ps2ToUsb(0x30, Some("]"), Some("}"))
    case 0x1C => Ps2ToUsb(0x28, Some("Enter"), Some("^ Enter ^"))
    case 0x1D => Unmapped
    case 0x1E => Ps2ToUsb(0x04, Some("a"), Some("A"))
    case 0x1F => Ps2ToUsb(0x16, Some("s"), Some("S"))
    case 0x20 => Ps2ToUsb(0x07, Some("d"), Some("D"))
    case 0x21 => Ps2ToUsb(0x09, Some("f"), Some("F"))
    case 0x22 => Ps2ToUsb(0x0A, Some("g"), Some("G"))
    case 0x23 => Ps2ToUsb(0x0B, Some("h"), Some("H"))
    case 0x24 => Ps2ToUsb(0x0D, Some("j"), Some("J"))
    case 0x25 => Ps2ToUsb(0x0E, Some("k"), Some("K"))
    case 0x26 => Ps2ToUsb(0x0F, Some("l"), Some("L"))
    case 0x27 => Ps2ToUsb(0x33, Some(";"), Some(":"))
    case 0x28 => Ps2ToUsb(0x34, Some("'"), Some("\""))
    case 0x29 => Ps2ToUsb(0x35, Some("`"), Some("~"))
    case 0x2A => Unmapped
    case 0x2B => Ps2ToUsb(0x31, Some("\\"), Some("|"))
    case 0x2C => Ps2ToUsb(0x1D, Some("z"), Some("Z"))
    case 0x2D => Ps2ToUsb(0x1B, Some("x"), Some("X"))
    case 0x2E => Ps2ToUsb(0x06, Some("c"), Some("C"))
    case 0x2F => Ps2ToUsb(0x19, Some("v"), Some("V"))
    case 0x30 => Ps2ToUsb(0x05, Some("b"), Some("B"))
    case 0x31 => Ps2ToUsb(0x11, Some("n"), Some("N"))
    case 0x32 => Ps2ToUsb(0x10, Some("m"), Some("M"))
    case 0x33 => Ps2ToUsb(0x36, Some(","), Some("<"))
    case 0x34 => Ps2ToUsb(0x37, Some("."), Some(">"))
    case 0x35 => Ps2ToUsb(0x38, Some("/"), Some("?"))
    case 0x36 => Unmapped
    case 0x37 => Ps2ToUsb(0x55, Some("*"), Some("^ * ^"))
    case 0x38 => Unmapped
    case 0x39 => Ps2ToUsb(0x2C, Some("Spacebar"), Some("^ Spacebar ^"))
    case 0x3A => Ps2ToUsb(0x39, Some("CapsLock"), Some("^ CapsLock ^"))
    case 0x3B => Ps2ToUsb(0x3A, Some("F1"), Some("^ F1 ^"))
    case 0x3C => Ps2ToUsb(0x3B, Some("F2"), Some("^ F2 ^"))
    case 0x3D => Ps2ToUsb(0x3C, Some("F3"), Some("^ F3 ^"))
    case 0x3E => Ps2ToUsb(0x3D, Some("F4"), Some("^ F4 ^"))
    case 0x3F => Ps2ToUsb(0x3E, Some("F5"), Some("^ F5 ^"))
    case 0x40 => Ps2ToUsb(0x3F, Some("F6"), Some("^ F6 ^"))
    case 0x41 => Ps2ToUsb(0x40, Some("F7"), Some("^ F7 ^"))
    case 0x42 => Ps2ToUsb(0x41, Some("F8"), Some("^ F8 ^"))
    case 0x43 => Ps2ToUsb(0x42, Some("F9"), Some("^ F9 ^"))
    case 0x44 => Ps2ToUsb(0x43, Some("F10"), Some("^ F10 ^"))
    case 0x45 => Ps2ToUsb(0x53, Some("NumLock"), Some("^ NumLock ^"))
    case 0x46 => Ps2ToUsb(0x47, Some("Scroll Lock"), Some("^ Scroll Lock ^"))
    case 0x47 => Ps2ToUsb(0x4A, Some("Home"), Some("^ Home ^"))
    case 0x48 => Ps2ToUsb(0x52, Some("Up"), Some("^ Up ^"))
    case 0x49 => Ps2ToUsb(0x4B, Some("PageUp"), Some("^ PageUp ^"))
    case 0x4A => Ps2ToUsb(0x56, Some("-"), Some("^ - ^"))
    case 0x4B => Ps2ToUsb(0x50, Some("Left"), Some("^ Left ^"))
    case 0x4C => Ps2ToUsb(0x5D, Some("5"), Some("^ 5 ^"))
    case 0x4D => Ps2ToUsb(0x4F, Some("Right"), Some("^ Right ^"))
    case 0x4E => Ps2ToUsb(0x57, Some("+"), Some("^ + ^"))
    case 0x4F => Ps2ToUsb(0x4D, Some("End"), Some("^ End ^"))
    case 0x50 => Ps2ToUsb(0x51, Some("Down"), Some("^ Down ^"))
    case 0x51 => Ps2ToUsb(0x4E, Some("PageDown"), Some("^ PageDown ^"))
    case 0x52 => Ps2ToUsb(0x49, Some("Insert"), Some("^ Insert ^"))
    case 0x53 => Ps2ToUsb(0x4C, Some("Delete"), Some("^ Delete ^"))
    case 0x54 => Unmapped
    case 0x55 => Unmapped
    case 0x56 => Unmapped
    case 0x57 => Ps2ToUsb(0x44, Some("F11"), Some("^ F11 ^"))
    case 0x58 => Ps2ToUsb(0x45, Some("F12"), Some("^ F12 ^"))
    case 0x59 => Unmapped
    case 0x5A => Unmapped
    case 0x5B => Unmapped
    case 0x5C => Unmapped
    case 0x5D => Unmapped
    case 0x5E => Unmapped
    case 0x5F => Unmapped
    case 0x60 => Unmapped
    case 0x61 => Unmapped
    case 0x62 => Unmapped
    case 0x63 => Unmapped
    case 0x64 => Unmapped
    case 0x65 => Unmapped
    case 0x66 => Unmapped
    case 0x67 => Unmapped
    case 0x68 => Unmapped
    case 0x69 => Unmapped
    case 0x6A => Unmapped
    case 0x6B => Unmapped
    case 0x6C => Unmapped
    case 0x6D => Unmapped
    case 0x6E => Unmapped
    case 0x6F => Unmapped
    case 0x70 => Unmapped
    case 0x71 => Unmapped
    case 0x72 => Unmapped
    case 0x73 => Unmapped
    case 0x74 => Unmapped
    case 0x75 => Unmapped
    case 0x76 => Unmapped
    case 0x77 => Unmapped
    case 0x78 => Unmapped
    case 0x79 => Unmapped
    case 0x7A => Unmapped
    case 0x7B => Unmapped
    case 0x7C => Unmapped
    case 0x7D => Unmapped
    case 0x7E => Unmapped
    case 0x7F => Unmapped
    case _ => assert false; Unmapped
  }

  /** The scan codes left without a usage: 0x00, the modifier codes (left control 0x1D,
      left shift 0x2A, right shift 0x36, left alt 0x38), 0x54-0x56 and 0x59-0x7F. */
  predicate IsUnmappedCode(code: nat) {
    || code == 0x00 || code == 0x1D || code == 0x2A || code == 0x36 || code == 0x38
    || 0x54 <= code <= 0x56 || 0x59 <= code
  }

  /** The shape both tables share: one entry per scan code below 128, a zero usage
      exactly on the unmapped codes, names exactly on the mapped ones. */
  predicate WellShaped(table: seq<Ps2ToUsb>) {
    && |table| == MaxPs2Num
    && (forall code :: 0 <= code < MaxPs2Num ==> (table[code].usbCode == 0 <==> IsUnmappedCode(code)))
    && (forall code :: 0 <= code < MaxPs2Num ==>
          (table[code].usbCode == 0 <==> table[code].keyName.None? && table[code].shiftKeyName.None?))
  }

  /** The keycode shim's table has the documented shape, with 0x1E as the letter A. */
  lemma Ps2ToUsbMapShape()
    ensures WellShaped(Ps2ToUsbMap)
    ensures Ps2ToUsbMap[0x1E] == Ps2ToUsb(0x04, Some("a"), Some("A"))
  {
    forall code | 0 <= code < MaxPs2Num
      ensures Ps2ToUsbMap[code].usbCode == 0 <==> IsUnmappedCode(code)
      ensures Ps2ToUsbMap[code].usbCode == 0 <==> Ps2ToUsbMap[code].keyName.None? && Ps2ToUsbMap[code].shiftKeyName.None?
    {
      EntryShape(code);
    }
  }

  /** One entry of the keycode shim's table: a zero usage exactly on an unmapped
      code, and then no names. */
  lemma EntryShape(code: nat)
    requires code < MaxPs2Num
    ensures Ps2Entry(code).usbCode == 0 <==> IsUnmappedCode(code)
    ensures Ps2Entry(code).usbCode == 0 <==> Ps2Entry(code).keyName.None? && Ps2Entry(code).shiftKeyName.None?
  {
    if code < 0x20 {
      EntryShape00To1F(code);
    } else if code < 0x40 {
      EntryShape20To3F(code);
    } else if code < 0x60 {
      EntryShape40To5F(code);
    } else {
      EntryShape60To7F(code);
    }
  }

  /** EntryShape for scan codes 0x00 to 0x1F. */
  lemma EntryShape00To1F(code: nat)
    requires code < 0x20
    ensures Ps2Entry(code).usbCode == 0 <==> IsUnmappedCode(code)
    ensures Ps2Entry(code).usbCode == 0 <==> Ps2Entry(code).keyName.None? && Ps2Entry(code).shiftKeyName.None?
  {
  }

  /** EntryShape for scan codes 0x20 to 0x3F. */
  lemma EntryShape20To3F(code: nat)
    requires 0x20 <= code < 0x40
    ensures Ps2Entry(code).usbCode == 0 <==> IsUnmappedCode(code)
    ensures Ps2Entry(code).usbCode == 0 <==> Ps2Entry(code).keyName.None? && Ps2Entry(code).shiftKeyName.None?
  {
  }

  /** EntryShape for scan codes 0x40 to 0x5F. */
  lemma EntryShape40To5F(code: nat)
    requires 0x40 <= code < 0x60
    ensures Ps2Entry(code).usbCode == 0 <==> IsUnmappedCode(code)
    ensures Ps2Entry(code).usbCode == 0 <==> Ps2Entry(code).keyName.None? && Ps2Entry(code).shiftKeyName.None?
  {
  }

  /** EntryShape for scan codes 0x60 to 0x7F. */
  lemma EntryShape60To7F(code: nat)
    requires 0x60 <= code < 0x80
    ensures Ps2Entry(code).usbCode == 0 <==> IsUnmappedCode(code)
    ensures Ps2Entry(code).usbCode == 0 <==> Ps2Entry(code).keyName.None? && Ps2Entry(code).shiftKeyName.None?
  {
  }

  /** The two drivers translate every scan code the same way. */
  lemma TablesIdentical()
    ensures AikPs2ToUsbMap == Ps2ToUsbMap
  {
  }
}
