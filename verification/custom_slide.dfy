/** Custom KASLR slide support: which kernel slides the current memory map can host,
    a random pick among them, the boot-args and csr-active-config variables served to
    boot.efi, and the clean-up before the kernel starts. */
module CustomSlide {
  import opened Types
  import opened BootArgs

  /** BASE_KERNEL_ADDR: where the kernel image lands for slide 0. */
  const BaseKernelAddress: nat := 0x100000
  /** TOTAL_SLIDE_NUM: slides are the byte values 0..255. */
  const TotalSlideNum: nat := 256
  /** Distance between two consecutive slides. */
  const SlideGranularity: nat := 0x200000
  /** APTIOFIX_SPECULATED_KERNEL_SIZE. */
  const SpeculatedKernelSize: nat := 0x18000000
  /** Sandy and Ivy Bridge skip this much for slides 0x80 and up (Intel HD 2000/3000). */
  const SandyOrIvyGap: nat := 0x10200000
  /** CSR_ALLOW_UNRESTRICTED_NVRAM, bit 6 of csr-active-config. */
  const CsrAllowUnrestrictedNvram: bv32 := 0x40

  // ---------------------------------------------------------------------------
  // CPU detection

  /** Display family from CPUID leaf 1 EAX; the extended family is added for 15. */
  function CpuFamily(eax: bv32): bv32 {
    var family := (eax >> 8) & 0xF;
    if family == 15 then (eax >> 20) + 15 else family
  }

  /** Display model from CPUID leaf 1 EAX; the extended model is used for family 6 and 15. */
  function CpuModel(eax: bv32): bv32 {
    var family := CpuFamily(eax);
    var model := (eax & 0xFF) >> 4;
    if family == 15 || family == 6 then model | ((eax >> 12) & 0xF0) else model
  }

  /** IsSandyOrIvy: family 6, model 0x2A (Sandy Bridge) or 0x3A (Ivy Bridge). */
  function IsSandyOrIvy(eax: bv32): (r: bool)
    ensures r <==> ((eax >> 8) & 0xF == 6 && (eax >> 4) & 0xF == 0xA
                    && ((eax >> 16) & 0xF == 2 || (eax >> 16) & 0xF == 3))
  {
    CpuFamily(eax) == 6 && (CpuModel(eax) == 0x2A || CpuModel(eax) == 0x3A)
  }

  /** mSandyOrIvy / mSandyOrIvySet: CPUID is consulted on the first call only. */
  function SandyOrIvyCached(cache: Option<bool>, eax: bv32): (r: (bool, Option<bool>))
    ensures r.1 == Some(r.0)
    ensures cache.Some? ==> r.0 == cache.value
    ensures cache.None? ==> r.0 == IsSandyOrIvy(eax)
  {
    match cache
    case Some(v) => (v, cache)
    case None => (IsSandyOrIvy(eax), Some(IsSandyOrIvy(eax)))
  }

  // ---------------------------------------------------------------------------
  // Slide windows

  /** The range [start, end) the kernel occupies for one slide. */
  datatype SlideWindow = SlideWindow(start: nat, end: nat)

  /** GetSlideRangeForValue. */
  function SlideRange(slide: nat, sandyOrIvy: bool): (w: SlideWindow)
    requires slide < TotalSlideNum
    ensures w.end == w.start + SpeculatedKernelSize
    ensures w.start >= BaseKernelAddress
    ensures w.start - BaseKernelAddress
      == slide * SlideGranularity + (if slide >= 0x80 && sandyOrIvy then SandyOrIvyGap else 0)
  {
    var start := slide * SlideGranularity + BaseKernelAddress;
    var start' := if slide >= 0x80 && sandyOrIvy then start + SandyOrIvyGap else start;
    SlideWindow(start', start' + SpeculatedKernelSize)
  }

  /** OverlapsWithSlide: an inclusive test of [address, address + size] against the
      span of all slide windows (two spans on Sandy and Ivy Bridge). The sum
      address + size is a UINT64 and wraps. */
  function OverlapsWithSlide(address: nat, size: nat, sandyOrIvy: bool): (r: bool)
    requires address < TwoTo64 && size < TwoTo64
  {
    var last := if sandyOrIvy then 0x7F else 0xFF;
    var upper := (address + size) % TwoTo64;
    var start := BaseKernelAddress;
    var end := start + last * SlideGranularity + SpeculatedKernelSize;
    if end >= address && start <= upper then true
    else if sandyOrIvy then
      var start2 := 0x80 * SlideGranularity + BaseKernelAddress + SandyOrIvyGap;
      var end2 := start2 + last * SlideGranularity + SpeculatedKernelSize;
      end2 >= address && start2 <= upper
    else false
  }

  /** The closed window of `slide` meets the closed range [address, address + size]. */
  predicate WindowMeets(slide: nat, sandyOrIvy: bool, address: nat, size: nat)
    requires slide < TotalSlideNum
  {
    var w := SlideRange(slide, sandyOrIvy);
    w.start <= address + size && address <= w.end
  }

  /** Slide `slide` is the one whose window starts at the largest granule at or
      below `p` within the run of slides [first, last]. */
  lemma WindowCovers(p: nat, first: nat, last: nat, sandyOrIvy: bool)
    requires first <= last < TotalSlideNum
    requires first < 0x80 <= last ==> !sandyOrIvy
    requires SlideRange(first, sandyOrIvy).start <= p <= SlideRange(last, sandyOrIvy).end
    ensures exists s :: first <= s <= last && SlideRange(s, sandyOrIvy).start <= p <= SlideRange(s, sandyOrIvy).end
  {
    var base: nat := SlideRange(first, sandyOrIvy).start - first * SlideGranularity;
    var d: nat := p - base;
    var k: nat := d / SlideGranularity;
    assert k * SlideGranularity <= d < k * SlideGranularity + SlideGranularity;
    var s: nat := if k > last then last else k;
    assert first <= s <= last;
    var w := SlideRange(s, sandyOrIvy);
    assert w.start == base + s * SlideGranularity;
    assert w.start <= p;
    assert p <= w.end;
  }

  /** OverlapsWithSlide holds exactly when some slide window meets the range, as long
      as address + size does not wrap. */
  lemma OverlapsWithSlideMeaning(address: nat, size: nat, sandyOrIvy: bool)
    requires address + size < TwoTo64
    ensures OverlapsWithSlide(address, size, sandyOrIvy)
      <==> exists s :: 0 <= s < TotalSlideNum && WindowMeets(s, sandyOrIvy, address, size)
  {
    var hi := address + size;
    if OverlapsWithSlide(address, size, sandyOrIvy) {
      var first, last := 0, 255;
      if sandyOrIvy {
        var end := BaseKernelAddress + 0x7F * SlideGranularity + SpeculatedKernelSize;
        if end >= address && BaseKernelAddress <= hi {
          last := 0x7F;
        } else {
          first := 0x80;
        }
      }
      var p := if address > SlideRange(first, sandyOrIvy).start then address else SlideRange(first, sandyOrIvy).start;
      WindowCovers(p, first, last, sandyOrIvy);
      var s :| first <= s <= last && SlideRange(s, sandyOrIvy).start <= p <= SlideRange(s, sandyOrIvy).end;
      assert WindowMeets(s, sandyOrIvy, address, size);
    } else {
      forall s: nat | s < TotalSlideNum
        ensures !WindowMeets(s, sandyOrIvy, address, size)
      {
        var w := SlideRange(s, sandyOrIvy);
        if sandyOrIvy && s >= 0x80 {
          assert w.start >= 0x80 * SlideGranularity + BaseKernelAddress + SandyOrIvyGap;
          assert w.end <= 0x80 * SlideGranularity + BaseKernelAddress + SandyOrIvyGap + 0x7F * SlideGranularity + SpeculatedKernelSize;
        } else if sandyOrIvy {
          assert w.end <= BaseKernelAddress + 0x7F * SlideGranularity + SpeculatedKernelSize;
        } else {
          assert w.end <= BaseKernelAddress + 0xFF * SlideGranularity + SpeculatedKernelSize;
        }
      }
    }
  }

  // ---------------------------------------------------------------------------
  // Valid slides

  /** A descriptor's range meets the slide window (both half-open). */
  predicate Overlaps(d: Descriptor, w: SlideWindow) {
    d.physicalStart < w.end && EndOf(d) > w.start
  }

  function Min(a: nat, b: nat): nat { if a <= b then a else b }
  function Max(a: nat, b: nat): nat { if a <= b then b else a }

  /** Length of the part of a descriptor that lies inside the window. */
  function Clipped(d: Descriptor, w: SlideWindow): (n: nat)
    requires w.start <= w.end && Overlaps(d, w)
    ensures n <= PagesToSize(d.pages) && n <= w.end - w.start
  {
    Min(EndOf(d), w.end) - Max(d.physicalStart, w.start)
  }

  /** Bytes of the window the map's overlapping descriptors cover, counted with
      multiplicity. */
  function Available(m: seq<Descriptor>, w: SlideWindow): nat
    requires w.start <= w.end
  {
    if |m| == 0 then 0
    else Available(m[..|m| - 1], w) + (if Overlaps(m[|m| - 1], w) then Clipped(m[|m| - 1], w) else 0)
  }

  predicate OverlapsOnlyConventional(m: seq<Descriptor>, w: SlideWindow) {
    forall i :: 0 <= i < |m| && Overlaps(m[i], w) ==> m[i].memType == ConventionalMemory
  }

  /** A slide can be used: everything the window touches is free memory, and the
      free pieces cover the window exactly. */
  predicate SlideSupported(m: seq<Descriptor>, slide: nat, sandyOrIvy: bool)
    requires slide < TotalSlideNum
  {
    var w := SlideRange(slide, sandyOrIvy);
    OverlapsOnlyConventional(m, w) && w.start + Available(m, w) == w.end
  }

  /** The supported slides below `n`, in ascending order. */
  function ValidSlidesBelow(m: seq<Descriptor>, sandyOrIvy: bool, n: nat): seq<nat>
    requires n <= TotalSlideNum
  {
    if n == 0 then []
    else ValidSlidesBelow(m, sandyOrIvy, n - 1) + (if SlideSupported(m, n - 1, sandyOrIvy) then [n - 1] else [])
  }

  function ValidSlides(m: seq<Descriptor>, sandyOrIvy: bool): seq<nat> {
    ValidSlidesBelow(m, sandyOrIvy, TotalSlideNum)
  }

  predicate StrictlyAscending(s: seq<nat>) {
    forall i, j :: 0 <= i < j < |s| ==> s[i] < s[j]
  }

  /** The slides below `n` come out in ascending order, below `n`. */
  lemma {:induction false} ValidSlidesBelowAscending(m: seq<Descriptor>, sandyOrIvy: bool, n: nat)
    requires n <= TotalSlideNum
    ensures StrictlyAscending(ValidSlidesBelow(m, sandyOrIvy, n))
    ensures |ValidSlidesBelow(m, sandyOrIvy, n)| <= n
    ensures forall i :: 0 <= i < |ValidSlidesBelow(m, sandyOrIvy, n)| ==> ValidSlidesBelow(m, sandyOrIvy, n)[i] < n
  {
    if n > 0 {
      ValidSlidesBelowAscending(m, sandyOrIvy, n - 1);
      var prev := ValidSlidesBelow(m, sandyOrIvy, n - 1);
      var last: seq<nat> := if SlideSupported(m, n - 1, sandyOrIvy) then [n - 1] else [];
      assert ValidSlidesBelow(m, sandyOrIvy, n) == prev + last;
    }
  }

  /** The slides below `n` are exactly the supported ones. */
  lemma {:induction false} ValidSlidesBelowMembers(m: seq<Descriptor>, sandyOrIvy: bool, n: nat)
    requires n <= TotalSlideNum
    ensures forall s: nat :: s in ValidSlidesBelow(m, sandyOrIvy, n) <==> s < n && SlideSupported(m, s, sandyOrIvy)
  {
    if n > 0 {
      ValidSlidesBelowMembers(m, sandyOrIvy, n - 1);
      var prev := ValidSlidesBelow(m, sandyOrIvy, n - 1);
      var last: seq<nat> := if SlideSupported(m, n - 1, sandyOrIvy) then [n - 1] else [];
      assert ValidSlidesBelow(m, sandyOrIvy, n) == prev + last;
      forall s: nat
        ensures s in prev + last <==> s < n && SlideSupported(m, s, sandyOrIvy)
      {
        assert s in prev + last <==> s in prev || s in last;
      }
    }
  }

  /** The valid list is strictly ascending, holds at most 256 slides, and contains
      a slide exactly when the map supports it. */
  lemma ValidSlidesShape(m: seq<Descriptor>, sandyOrIvy: bool)
    ensures StrictlyAscending(ValidSlides(m, sandyOrIvy))
    ensures |ValidSlides(m, sandyOrIvy)| <= TotalSlideNum
    ensures forall s: nat :: s in ValidSlides(m, sandyOrIvy) <==> s < TotalSlideNum && SlideSupported(m, s, sandyOrIvy)
  {
    ValidSlidesBelowAscending(m, sandyOrIvy, TotalSlideNum);
    ValidSlidesBelowMembers(m, sandyOrIvy, TotalSlideNum);
  }

  /** The inner loop of DecideOnCustomSlideImplementation for one slide: walks the
      map, stops at the first overlapping descriptor that is not free memory, and
      otherwise adds each overlapping descriptor's size minus the parts before and
      after the window. */
  method CheckSlide(m: seq<Descriptor>, slide: nat, sandyOrIvy: bool) returns (supported: bool)
    requires slide < TotalSlideNum
    ensures supported <==> SlideSupported(m, slide, sandyOrIvy)
  {
    var w := SlideRange(slide, sandyOrIvy);
    var startAddr, endAddr := w.start, w.end;
    supported := true;
    var available: int := 0;
    var index := 0;
    while index < |m|
      invariant 0 <= index <= |m|
      invariant supported ==> OverlapsOnlyConventional(m[..index], w) && available == Available(m[..index], w)
      invariant !supported ==> !OverlapsOnlyConventional(m, w)
    {
      var desc := m[index];
      var descEnd := desc.physicalStart + PagesToSize(desc.pages);
      assert m[..index + 1][..index] == m[..index];
      if desc.physicalStart < endAddr && descEnd > startAddr {
        if desc.memType != ConventionalMemory {
          supported := false;
          break;
        } else {
          available := available + PagesToSize(desc.pages);
          if desc.physicalStart < startAddr {
            available := available - (startAddr - desc.physicalStart);
          }
          if descEnd > endAddr {
            available := available - (descEnd - endAddr);
          }
        }
      }
      index := index + 1;
    }
    if supported {
      assert m[..index] == m;
    }
    if startAddr + available != endAddr {
      supported := false;
    }
  }

  /** DecideOnCustomSlideImplementation: `None` when the memory map could not be
      obtained (the previous list stays), otherwise the list rebuilt from empty. */
  method DecideOnCustomSlideImplementation(fetch: Status, m: seq<Descriptor>, sandyOrIvy: bool)
    returns (valid: Option<seq<nat>>)
    ensures fetch != Success <==> valid.None?
    ensures valid.Some? ==> valid.value == ValidSlides(m, sandyOrIvy)
  {
    if fetch != Success {
      return None;
    }
    var list: seq<nat> := [];
    var slide := 0;
    while slide < TotalSlideNum
      invariant 0 <= slide <= TotalSlideNum
      invariant list == ValidSlidesBelow(m, sandyOrIvy, slide)
    {
      var supported := CheckSlide(m, slide, sandyOrIvy);
      if supported {
        list := list + [slide];
      }
      slide := slide + 1;
    }
    return Some(list);
  }

  // ---------------------------------------------------------------------------
  // Slide generation

  /** Slide index drawn from one TSC reading: the XOR of its two low bytes. */
  function SlideIndexOf(clock: bv32): (r: nat)
    ensures r < 256
  {
    ((clock & 0xFF) ^ ((clock >> 8) & 0xFF)) as nat
  }

  /** Some reading in the sequence gives a nonzero index, so the retry loop ends. */
  predicate HasUsableReading(readings: seq<bv32>) {
    exists j :: 0 <= j < |readings| && SlideIndexOf(readings[j]) != 0
  }

  /** The index the retry loop settles on: that of the first reading whose index is nonzero. */
  function FirstNonzeroIndex(readings: seq<bv32>): (r: nat)
    requires HasUsableReading(readings)
    ensures 0 < r < 256
    ensures exists j ::
      && 0 <= j < |readings|
      && SlideIndexOf(readings[j]) == r
      && (forall k :: 0 <= k < j ==> SlideIndexOf(readings[k]) == 0)
  {
    if SlideIndexOf(readings[0]) != 0 then SlideIndexOf(readings[0])
    else
      var r := FirstNonzeroIndex(readings[1..]);
      var j :| 0 <= j < |readings[1..]| && SlideIndexOf(readings[1..][j]) == r
        && (forall k :: 0 <= k < j ==> SlideIndexOf(readings[1..][k]) == 0);
      assert SlideIndexOf(readings[j + 1]) == r;
      r
  }

  /** GenerateRandomSlideValue: the successive TSC readings stand for AsmReadTsc;
      RDRAND can never end the loop, because its test also demands a nonzero index,
      which would already have ended it. */
  function GenerateRandomSlideValue(valid: seq<nat>, readings: seq<bv32>): (slide: nat)
    requires |valid| > 0
    requires HasUsableReading(readings)
    ensures slide in valid
    ensures slide == valid[FirstNonzeroIndex(readings) % |valid|]
  {
    valid[FirstNonzeroIndex(readings) % |valid|]
  }

  // ---------------------------------------------------------------------------
  // The slide=NNN argument

  /** DEC_SPACE: the digit value DecToAscii prints as a space. */
  const DecSpace: nat := 0xF

  /** DEC_TO_ASCII: the low nibble indexes "0123456789" followed by six spaces. */
  function DecToAscii(v: nat): char {
    "0123456789      "[v % 16]
  }

  predicate IsDigit(c: char) { '0' <= c <= '9' }

  /** Values 0..9 print as their digit; DEC_SPACE prints as a space. */
  lemma DecToAsciiDigits()
    ensures forall v: nat :: v < 10 ==> IsDigit(DecToAscii(v)) && (DecToAscii(v) - '0') as nat == v
    ensures DecToAscii(DecSpace) == ' '
  {
    var table := "0123456789      ";
    assert forall v: nat :: v < 10 ==> table[v] == ('0' as int + v) as char;
  }

  function DigitValue(c: char): nat
    requires IsDigit(c)
  {
    (c - '0') as nat
  }

  /** The three characters after "slide=": the decimal digits, left-aligned and
      padded with spaces, so the argument length never reveals the value. */
  function SlideDigits(slide: nat): (r: seq<char>)
    requires slide < TotalSlideNum
    ensures |r| == 3
    ensures IsDigit(r[0])
    ensures forall i :: 0 <= i < 3 ==> IsDigit(r[i]) || r[i] == ' '
    ensures forall i :: 0 < i < 3 && IsDigit(r[i]) ==> IsDigit(r[i - 1])
  {
    var first := slide / 100;
    var second := (slide % 100) / 10;
    var third := slide % 10;
    var r := if slide >= 100 then [DecToAscii(first), DecToAscii(second), DecToAscii(third)]
      else if slide >= 10 then [DecToAscii(second), DecToAscii(third), DecToAscii(DecSpace)]
      else [DecToAscii(third), DecToAscii(DecSpace), DecToAscii(DecSpace)];
    DecToAsciiDigits();
    r
  }

  /** Reads back the value of a digit run ended by a space or the end of the text. */
  function ParseDigits(s: seq<char>, acc: nat): nat
    decreases |s|
  {
    if |s| == 0 || !IsDigit(s[0]) then acc
    else ParseDigits(s[1..], acc * 10 + DigitValue(s[0]))
  }

  /** Reading a three-character field: as many digits as lead it, stopping at the
      first space. */
  lemma ParseField(r: seq<char>)
    requires |r| == 3 && IsDigit(r[0])
    ensures IsDigit(r[1]) && IsDigit(r[2]) ==>
      ParseDigits(r, 0) == (DigitValue(r[0]) * 10 + DigitValue(r[1])) * 10 + DigitValue(r[2])
    ensures IsDigit(r[1]) && r[2] == ' ' ==> ParseDigits(r, 0) == DigitValue(r[0]) * 10 + DigitValue(r[1])
    ensures r[1] == ' ' ==> ParseDigits(r, 0) == DigitValue(r[0])
  {
    var d0 := DigitValue(r[0]);
    assert ParseDigits(r, 0) == ParseDigits(r[1..], d0);
    if IsDigit(r[1]) {
      var d1 := DigitValue(r[1]);
      assert r[1..][0] == r[1] && r[1..][1..] == r[2..];
      assert ParseDigits(r[1..], d0) == ParseDigits(r[2..], d0 * 10 + d1);
      assert r[2..][0] == r[2] && r[2..][1..] == [];
    } else {
      assert r[1..][0] == r[1];
    }
  }

  /** The padded digits always read back as the slide they were printed from. */
  lemma SlideDigitsRoundTrip(slide: nat)
    requires slide < TotalSlideNum
    ensures ParseDigits(SlideDigits(slide), 0) == slide
  {
    var r := SlideDigits(slide);
    ParseField(r);
    var a, b, c := slide / 100, (slide % 100) / 10, slide % 10;
    DecimalSplit(slide);
    DigitReadsBack(a);
    DigitReadsBack(b);
    DigitReadsBack(c);
    DecToAsciiDigits();
  }

  /** A value 0..9 prints as a digit that reads back as itself. */
  lemma DigitReadsBack(v: nat)
    requires v < 10
    ensures IsDigit(DecToAscii(v)) && DigitValue(DecToAscii(v)) == v
  {
    DecToAsciiDigits();
  }

  /** The three decimal places of a value below 1000, and which of them lead. */
  lemma DecimalSplit(n: nat)
    requires n < 1000
    ensures n / 100 < 10 && (n % 100) / 10 < 10 && n % 10 < 10
    ensures n == (n / 100 * 10 + (n % 100) / 10) * 10 + n % 10
    ensures n < 100 ==> n == (n % 100) / 10 * 10 + n % 10 && n / 100 == 0
    ensures n < 10 ==> n == n % 10 && (n % 100) / 10 == 0
  {
  }

  const SlidePrefix: seq<char> := "slide="

  /** The boot-args text synthesised once: " slide=NNN" is appended to the stored
      variable when it was read and 11 more bytes (the space, the argument and the
      terminator) still fit in BOOT_LINE_LENGTH; otherwise "slide=NNN" is written from
      the start of the buffer. */
  function AppendSlideArgument(readStatus: Status, read: seq<char>, slide: nat): (r: seq<char>)
    requires slide < TotalSlideNum
    requires readStatus == Success ==> |read| < BootLineLength
    ensures 9 <= |r| < BootLineLength
    ensures r[|r| - 9..] == SlidePrefix + SlideDigits(slide)
    ensures readStatus == Success && |read| + 11 <= BootLineLength ==> r == read + " " + SlidePrefix + SlideDigits(slide)
    ensures !(readStatus == Success && |read| + 11 <= BootLineLength) ==> |r| == 9
  {
    if readStatus == Success && |read| + 11 <= BootLineLength then
      read + " " + SlidePrefix + SlideDigits(slide)
    else
      SlidePrefix + SlideDigits(slide)
  }

  // ---------------------------------------------------------------------------
  // Driver state and the GetVariable override

  /** The driver's static variables for custom slides. `stored` is the text of
      mStoredBootArgsVar before its terminator; `validSlides` is the first
      mValidSlidesNum entries of mValidSlides. */
  datatype SlideState = SlideState(
    storedSet: bool,
    storedSize: nat,
    stored: seq<char>,
    analyzeDone: bool,
    csrSet: bool,
    csrValue: bv32,
    validSlides: seq<nat>)

  /** The state at load: no stored boot-args, no analysis yet, and a count of 256
      over a zero-filled array. */
  function InitialSlideState(): (st: SlideState)
    ensures |st.validSlides| == TotalSlideNum && !st.storedSet && !st.analyzeDone && !st.csrSet
  {
    SlideState(false, 0, [], false, false, 0, seq(TotalSlideNum, _ => 0))
  }

  /** The vendor GUID of a variable request. */
  datatype VendorGuid = AppleBootVariableGuid | OtherGuid(id: nat)

  /** One GetVariable call as the override sees it: which pointers are non-NULL,
      the name, the GUID and the caller's buffer size. */
  datatype VariableRequest = VariableRequest(
    namePresent: bool,
    name: seq<char>,
    guidPresent: bool,
    guid: VendorGuid,
    dataSizePresent: bool,
    dataSize: nat,
    dataPresent: bool)

  /** What the original GetVariable answers for this request: its status, the size it
      reports, and the buffer contents it leaves (read as a UINT32 for
      csr-active-config and as text before the terminator for boot-args). */
  datatype OriginalAnswer = OriginalAnswer(status: Status, dataSize: nat, word: bv32, text: seq<char>)

  /** Who produced a reply. */
  datatype Route = ToCsrActiveConfig | ToBootArgs | ToOriginal

  /** What the caller sees: status, *DataSize, and the data the override itself
      wrote (`None` when it left the buffer to the original or did not write it). */
  datatype Reply = Reply(route: Route, status: Status, dataSize: nat, word: Option<bv32>, text: Option<seq<char>>)

  /** Inputs of the machine during one call: whether the user passed slide= already,
      the memory map the analysis would read, the CPU kind, the TSC readings, and the
      original GetVariable's answer. */
  datatype Environment = Environment(
    slideArgPresent: bool,
    mapStatus: Status,
    memoryMap: seq<Descriptor>,
    sandyOrIvy: bool,
    readings: seq<bv32>,
    original: OriginalAnswer)

  /** The value passed back to the original-answer caller unchanged. */
  function Forwarded(original: OriginalAnswer): Reply {
    Reply(ToOriginal, original.status, original.dataSize, None, None)
  }

  /** GetVariableCsrActiveConfig: a missing or short buffer only learns the size;
      otherwise the original value (0 after a read error, which then counts as
      success) is recorded and returned with bit 6 set. */
  function GetVariableCsrActiveConfig(st: SlideState, dataPresent: bool, dataSize: nat, original: OriginalAnswer)
    : (r: (Reply, SlideState))
    ensures r.0.route == ToCsrActiveConfig
    ensures !dataPresent || dataSize < 4 ==>
      r.0.status == BufferTooSmall && r.0.dataSize == 4 && r.0.word.None? && r.1 == st
    ensures dataPresent && dataSize >= 4 ==>
      && r.0.status == Success
      && r.0.dataSize == original.dataSize
      && r.1 == st.(csrSet := true, csrValue := if IsError(original.status) then 0 else original.word)
      && r.0.word == Some(r.1.csrValue | CsrAllowUnrestrictedNvram)
  {
    if !dataPresent || dataSize < 4 then
      (Reply(ToCsrActiveConfig, BufferTooSmall, 4, None, None), st)
    else
      var config := if IsError(original.status) then 0 else original.word;
      var st' := st.(csrSet := true, csrValue := config);
      (Reply(ToCsrActiveConfig, Success, original.dataSize, Some(config | CsrAllowUnrestrictedNvram), None), st')
  }

  /** What the boot-args handler needs when it builds the stored text: a valid slide
      to pick, a TSC reading that ends the retry loop, and a stored text that ends
      inside BOOT_LINE_LENGTH. */
  predicate BootArgsBuildable(st: SlideState, env: Environment) {
    && |st.validSlides| > 0
    && SlidesInRange(st.validSlides)
    && HasUsableReading(env.readings)
    && (env.original.status == Success ==> |env.original.text| < BootLineLength)
  }

  /** GetVariableBootArgs: the text is built on the first call only, then served from
      the cache; a missing or short buffer gets BUFFER_TOO_SMALL, and *DataSize always
      becomes the stored size. */
  function GetVariableBootArgs(st: SlideState, dataPresent: bool, dataSize: nat, env: Environment)
    : (r: (Reply, SlideState))
    requires !st.storedSet ==> BootArgsBuildable(st, env)
    ensures r.0.route == ToBootArgs
    ensures r.1.storedSet
    ensures st.storedSet ==> r.1 == st
    ensures !st.storedSet ==> r.1 == st.(
      storedSet := true,
      stored := AppendSlideArgument(env.original.status, env.original.text,
        GenerateRandomSlideValue(st.validSlides, env.readings)),
      storedSize := |r.1.stored| + 1)
    ensures r.0.dataSize == r.1.storedSize
    ensures dataPresent && dataSize >= r.1.storedSize ==> r.0.status == Success && r.0.text == Some(r.1.stored)
    ensures !(dataPresent && dataSize >= r.1.storedSize) ==> r.0.status == BufferTooSmall && r.0.text.None?
  {
    var st' := if st.storedSet then st else
      var slide := GenerateRandomSlideValue(st.validSlides, env.readings);
      var text := AppendSlideArgument(env.original.status, env.original.text, slide);
      st.(storedSet := true, stored := text, storedSize := |text| + 1);
    if dataPresent && dataSize >= st'.storedSize then
      (Reply(ToBootArgs, Success, st'.storedSize, None, Some(st'.stored)), st')
    else
      (Reply(ToBootArgs, BufferTooSmall, st'.storedSize, None, None), st')
  }

  /** Every listed slide is a byte value. */
  predicate SlidesInRange(s: seq<nat>) {
    forall i :: 0 <= i < |s| ==> s[i] < TotalSlideNum
  }

  /** The request names an Apple boot variable with all pointers present. */
  predicate Intercepted(req: VariableRequest) {
    req.namePresent && req.guidPresent && req.dataSizePresent && req.guid == AppleBootVariableGuid
  }

  const CsrActiveConfigName: seq<char> := "csr-active-config"
  const BootArgsName: seq<char> := "boot-args"

  /** The state after the boot-args path has (possibly) run the map analysis: it
      runs when no slide= was given and it has not run before. A failed map fetch
      keeps the previous list. */
  function AnalyzeIfNeeded(st: SlideState, env: Environment): (st': SlideState)
    ensures st'.storedSet == st.storedSet && st'.stored == st.stored && st'.storedSize == st.storedSize
    ensures st'.csrSet == st.csrSet && st'.csrValue == st.csrValue
    ensures env.slideArgPresent || st.analyzeDone ==> st' == st
    ensures !env.slideArgPresent && !st.analyzeDone ==>
      && st'.analyzeDone
      && st'.validSlides == (if env.mapStatus == Success then ValidSlides(env.memoryMap, env.sandyOrIvy) else st.validSlides)
    ensures SlidesInRange(st.validSlides) ==> SlidesInRange(st'.validSlides)
  {
    if !env.slideArgPresent && !st.analyzeDone then
      ValidSlidesShape(env.memoryMap, env.sandyOrIvy);
      var valid := if env.mapStatus == Success then ValidSlides(env.memoryMap, env.sandyOrIvy) else st.validSlides;
      assert forall i :: 0 <= i < |valid| ==> valid[i] in valid;
      st.(validSlides := valid, analyzeDone := true)
    else st
  }

  /** The list decides whether the custom boot-args are served: only when some but
      not all slides are usable. */
  predicate OverrideBootArgs(st: SlideState) {
    |st.validSlides| != TotalSlideNum && |st.validSlides| > 0
  }

  /** GetVariableCustomSlide. */
  function GetVariableCustomSlide(st: SlideState, req: VariableRequest, env: Environment): (r: (Reply, SlideState))
    requires SlidesInRange(st.validSlides)
    requires Intercepted(req) && req.name == BootArgsName && !st.storedSet ==>
      HasUsableReading(env.readings) && (env.original.status == Success ==> |env.original.text| < BootLineLength)
    ensures !Intercepted(req) ==> r == (Forwarded(env.original), st)
    ensures Intercepted(req) && req.name == CsrActiveConfigName ==>
      r == GetVariableCsrActiveConfig(st, req.dataPresent, req.dataSize, env.original)
    ensures Intercepted(req) && req.name != CsrActiveConfigName && req.name != BootArgsName ==>
      r == (Forwarded(env.original), st)
    ensures r.0.route == ToBootArgs <==>
      Intercepted(req) && req.name == BootArgsName && OverrideBootArgs(AnalyzeIfNeeded(st, env))
  {
    if Intercepted(req) && req.name == CsrActiveConfigName then
      GetVariableCsrActiveConfig(st, req.dataPresent, req.dataSize, env.original)
    else if Intercepted(req) && req.name == BootArgsName then
      var st' := AnalyzeIfNeeded(st, env);
      if OverrideBootArgs(st') then
        GetVariableBootArgs(st', req.dataPresent, req.dataSize, env)
      else
        (Forwarded(env.original), st')
    else
      (Forwarded(env.original), st)
  }

  /** A repeated boot-args read is served from the cache: the same stored text, the
      same state, whatever the environment of the second call. */
  lemma BootArgsServedFromCache(st: SlideState, req: VariableRequest, req2: VariableRequest, env: Environment, env2: Environment)
    requires SlidesInRange(st.validSlides)
    requires Intercepted(req) && req.name == BootArgsName && !st.storedSet ==>
      HasUsableReading(env.readings) && (env.original.status == Success ==> |env.original.text| < BootLineLength)
    requires Intercepted(req) && req.name == BootArgsName
    requires Intercepted(req2) && req2.name == BootArgsName
    requires env2.slideArgPresent == env.slideArgPresent
    requires GetVariableCustomSlide(st, req, env).0.route == ToBootArgs
    ensures var st1 := GetVariableCustomSlide(st, req, env).1;
      && SlidesInRange(st1.validSlides)
      && GetVariableCustomSlide(st1, req2, env2).1 == st1
      && GetVariableCustomSlide(st1, req2, env2).0.route == ToBootArgs
      && GetVariableCustomSlide(st1, req2, env2).0.dataSize == st1.storedSize
      && (req2.dataPresent && req2.dataSize >= st1.storedSize ==> GetVariableCustomSlide(st1, req2, env2).0.text == Some(st1.stored))
  {
    var st0 := AnalyzeIfNeeded(st, env);
    var st1 := GetVariableCustomSlide(st, req, env).1;
    assert st1 == GetVariableBootArgs(st0, req.dataPresent, req.dataSize, env).1;
    assert st1.validSlides == st0.validSlides;
    assert AnalyzeIfNeeded(st1, env2) == st1;
  }

  /** The result of the restore step run before the kernel starts. */
  datatype RestoreOutcome = RestoreOutcome(csrWrite: Option<bv32>, commandLine: Option<seq<char>>, state: SlideState)

  /** HideSlideFromOS, command line and state only: "slide=" is stripped from the
      kernel command line (`None` when that removal never ends), and the list and the
      stored text are cleared; the stored flag stays set. */
  function HideSlideFromOS(st: SlideState, commandLine: seq<char>): (r: (Option<seq<char>>, SlideState))
    ensures r.0 == RemoveArgumentFromCommandLine(commandLine, SlidePrefix)
    ensures r.1.validSlides == [] && r.1.storedSize == 0 && r.1.stored == []
    ensures r.1.storedSet == st.storedSet && r.1.analyzeDone == st.analyzeDone
    ensures r.1.csrSet == st.csrSet && r.1.csrValue == st.csrValue
  {
    (RemoveArgumentFromCommandLine(commandLine, SlidePrefix), st.(validSlides := [], storedSize := 0, stored := []))
  }

  /** RestoreCustomSlideOverrides: the recorded csr-active-config goes back into
      boot_args when the field exists and a value was recorded; then the slide is
      hidden. */
  function RestoreCustomSlideOverrides(st: SlideState, csrFieldPresent: bool, commandLine: seq<char>): (r: RestoreOutcome)
    ensures r.csrWrite.Some? <==> csrFieldPresent && st.csrSet
    ensures r.csrWrite.Some? ==> r.csrWrite.value == st.csrValue
    ensures (r.commandLine, r.state) == HideSlideFromOS(st, commandLine)
  {
    var hidden := HideSlideFromOS(st, commandLine);
    RestoreOutcome(if csrFieldPresent && st.csrSet then Some(st.csrValue) else None, hidden.0, hidden.1)
  }

  /** boot.efi reads csr-active-config with bit 6 forced on, and the kernel gets
      back exactly the value the firmware had stored. */
  lemma CsrOverrideRoundTrip(st: SlideState, req: VariableRequest, env: Environment, commandLine: seq<char>)
    requires SlidesInRange(st.validSlides)
    requires Intercepted(req) && req.name == CsrActiveConfigName
    requires req.dataPresent && req.dataSize >= 4 && env.original.status == Success
    ensures var r := GetVariableCustomSlide(st, req, env);
      && r.0.word == Some(env.original.word | CsrAllowUnrestrictedNvram)
      && RestoreCustomSlideOverrides(r.1, true, commandLine).csrWrite == Some(env.original.word)
  {
    assert req.name != BootArgsName by {
      assert CsrActiveConfigName[0] != BootArgsName[0];
    }
  }

  /** Once the slide is hidden, boot-args reads go to the original service again as
      long as the analysis does not run a second time. */
  lemma HiddenSlideNotServed(st: SlideState, csrFieldPresent: bool, commandLine: seq<char>, req: VariableRequest, env: Environment)
    requires st.analyzeDone || env.slideArgPresent
    requires Intercepted(req) && req.name == BootArgsName && !st.storedSet ==>
      HasUsableReading(env.readings) && (env.original.status == Success ==> |env.original.text| < BootLineLength)
    ensures var st' := RestoreCustomSlideOverrides(st, csrFieldPresent, commandLine).state;
      GetVariableCustomSlide(st', req, env).0.route != ToBootArgs
  {
    var st' := RestoreCustomSlideOverrides(st, csrFieldPresent, commandLine).state;
    assert AnalyzeIfNeeded(st', env) == st';
  }

  // ---------------------------------------------------------------------------
  // Safe-mode KASLR unlock

  /** BOOT_MODE_SAFE | BOOT_MODE_ASLR as a little-endian 32-bit immediate. */
  const SafeModeSequence: seq<bv8> := [0x01, 0x40, 0x00, 0x00]
  /** Largest distance between the two comparisons. */
  const MaxDistance: nat := 0x10

  predicate SequenceAt(image: seq<bv8>, k: nat) {
    k + 4 <= |image| && image[k..k + 4] == SafeModeSequence
  }

  /** EndOff - StartOff: the last offset the scans look at. */
  function ScanEnd(image: seq<bv8>): nat
    requires |image| >= 20
  {
    |image| - 4 - MaxDistance
  }

  /** A pair the patch is meant for: a first occurrence at or before the scan end and a
      second one starting 4 to 0x10 bytes after it. */
  predicate PairAt(image: seq<bv8>, first: nat, second: nat)
    requires |image| >= 20
  {
    first <= ScanEnd(image) && SequenceAt(image, first)
    && first + 4 <= second <= first + MaxDistance && SequenceAt(image, second)
  }

  /** Both occurrences overwritten with 0xFF. */
  function Patch(image: seq<bv8>, first: nat, second: nat): (r: seq<bv8>)
    ensures |r| == |image|
    ensures forall i :: 0 <= i < |r| ==> r[i] == if first <= i < first + 4 || second <= i < second + 4 then 0xFF else image[i]
  {
    seq(|image|, i requires 0 <= i < |image| => if first <= i < first + 4 || second <= i < second + 4 then 0xFF else image[i])
  }

  /** The sequence cannot overlap itself: an occurrence rules out one 1 to 3 bytes later. */
  lemma SequenceNotSelfOverlapping(image: seq<bv8>, k: nat, d: nat)
    requires SequenceAt(image, k) && 1 <= d <= 3
    ensures !SequenceAt(image, k + d)
  {
    assert image[k + d] == image[k..k + 4][d] == SafeModeSequence[d] != SafeModeSequence[0];
    if k + d + 4 <= |image| {
      assert image[k + d..k + d + 4][0] != SafeModeSequence[0];
    }
  }

  /** The first scan: the first occurrence at or after `from`, or an offset past the
      scan end. */
  function FirstScan(image: seq<bv8>, from: nat): (f: nat)
    requires |image| >= 20
    ensures from <= f
    ensures f <= ScanEnd(image) ==> SequenceAt(image, f)
    ensures f > ScanEnd(image) ==> from > ScanEnd(image) || f == ScanEnd(image) + 1
    ensures forall k :: from <= k < f ==> !SequenceAt(image, k)
    decreases |image| - from
  {
    if from > ScanEnd(image) || SequenceAt(image, from) then from else FirstScan(image, from + 1)
  }

  /** The second scan as written: it also stops at the scan end, without a match. */
  function SecondScanAsWritten(image: seq<bv8>, first: nat, from: nat): (s: nat)
    requires |image| >= 20
    ensures from <= s
    decreases |image| - from
  {
    if from <= ScanEnd(image) && first + MaxDistance >= from && !SequenceAt(image, from) then
      SecondScanAsWritten(image, first, from + 1)
    else from
  }

  /** The do-while loop as written; the second component 0 means "nothing to patch". */
  function SafeModeLoopAsWritten(image: seq<bv8>, from: nat): (r: (nat, nat))
    requires |image| >= 20
    ensures r.1 != 0 ==> r.0 <= ScanEnd(image) && SequenceAt(image, r.0) && r.0 + 4 <= r.1 <= r.0 + MaxDistance
    decreases |image| + 1 - from
  {
    var first := FirstScan(image, from);
    if first > ScanEnd(image) then (first, 0)
    else
      var second := SecondScanAsWritten(image, first, first + 4);
      if first + MaxDistance < second then SafeModeLoopAsWritten(image, first + 4)
      else (first, second)
  }

  /** UnlockSlideSupportForSafeMode as written. The second scan can end because it
      reached the scan end rather than because it found the sequence, and the code
      then patches whatever lies there. */
  function UnlockSlideSupportForSafeModeAsWritten(image: seq<bv8>): (r: seq<bv8>)
    requires |image| >= 20
    ensures |r| == |image|
  {
    var (first, second) := SafeModeLoopAsWritten(image, 0);
    if second != 0 then Patch(image, first, second) else image
  }

  /** A 20-byte image with one occurrence and no second one: the code as written
      overwrites the first eight bytes, four of which were never the sequence, and the
      corrected version leaves the image alone. */
  lemma SafeModeAsWrittenPatchesUnmatchedBytes()
    ensures var image: seq<bv8> := SafeModeSequence + seq(16, _ => 0);
      && (forall f, s :: !PairAt(image, f, s))
      && !SequenceAt(image, 4)
      && UnlockSlideSupportForSafeModeAsWritten(image) == Patch(image, 0, 4)
      && UnlockSlideSupportForSafeModeAsWritten(image) != image
      && UnlockSlideSupportForSafeMode(image) == image
  {
    var image: seq<bv8> := SafeModeSequence + seq(16, _ => 0);
    assert SequenceAt(image, 0) by {
      assert image[0..4] == SafeModeSequence;
    }
    assert ScanEnd(image) == 0;
    assert !SequenceAt(image, 4) by {
      assert image[4] == 0;
    }
    assert FirstScan(image, 0) == 0;
    assert SecondScanAsWritten(image, 0, 4) == 4;
    assert Patch(image, 0, 4)[0] == 0xFF != image[0];
    forall f: nat, s: nat | PairAt(image, f, s)
      ensures false
    {
    }
  }

  /** The corrected second scan: the first occurrence in [from, first + 0x10], or
      first + 0x11 when there is none. */
  function SecondScan(image: seq<bv8>, first: nat, from: nat): (s: nat)
    requires |image| >= 20 && first <= ScanEnd(image) && from <= first + MaxDistance + 1
    ensures from <= s <= first + MaxDistance + 1
    ensures s <= first + MaxDistance ==> SequenceAt(image, s)
    ensures forall k :: from <= k < s ==> !SequenceAt(image, k)
    decreases first + MaxDistance + 1 - from
  {
    if from > first + MaxDistance || SequenceAt(image, from) then from
    else SecondScan(image, first, from + 1)
  }

  /** The corrected loop: the second scan stops only at a match or past first + 0x10;
      without a partner the search resumes four bytes after the first occurrence. */
  function SafeModeLoop(image: seq<bv8>, from: nat): (r: Option<(nat, nat)>)
    requires |image| >= 20
    ensures r.Some? ==> from <= r.value.0 && PairAt(image, r.value.0, r.value.1)
    decreases |image| + 1 - from
  {
    var first := FirstScan(image, from);
    if first > ScanEnd(image) then None
    else
      var second := SecondScan(image, first, first + 4);
      if first + MaxDistance < second then SafeModeLoop(image, first + 4)
      else Some((first, second))
  }

  /** Without a first occurrence at or after `from` there is no pair there. */
  lemma NoFirstNoPair(image: seq<bv8>, from: nat)
    requires |image| >= 20 && FirstScan(image, from) > ScanEnd(image)
    ensures forall f, s :: from <= f ==> !PairAt(image, f, s)
  {
    forall f: nat, s: nat | from <= f
      ensures !PairAt(image, f, s)
    {
      if f <= ScanEnd(image) {
        assert !SequenceAt(image, f);
      }
    }
  }

  /** A first occurrence without a partner rules out every pair that starts before
      the resumed search: the sequence cannot overlap itself. */
  lemma UnpartneredFirstNoPair(image: seq<bv8>, from: nat)
    requires |image| >= 20
    requires FirstScan(image, from) <= ScanEnd(image)
    requires FirstScan(image, from) + MaxDistance < SecondScan(image, FirstScan(image, from), FirstScan(image, from) + 4)
    ensures forall f, s :: from <= f < FirstScan(image, from) + 4 ==> !PairAt(image, f, s)
  {
    var first := FirstScan(image, from);
    SequenceNotSelfOverlapping(image, first, 1);
    SequenceNotSelfOverlapping(image, first, 2);
    SequenceNotSelfOverlapping(image, first, 3);
    forall f: nat, s: nat | from <= f < first + 4
      ensures !PairAt(image, f, s)
    {
      if f == first && first + 4 <= s <= first + MaxDistance {
        assert !SequenceAt(image, s);
      }
    }
  }

  /** A first occurrence with a partner is the least pair at or after `from`. */
  lemma PartneredFirstIsLeast(image: seq<bv8>, from: nat)
    requires |image| >= 20
    requires FirstScan(image, from) <= ScanEnd(image)
    requires SecondScan(image, FirstScan(image, from), FirstScan(image, from) + 4) <= FirstScan(image, from) + MaxDistance
    ensures var first := FirstScan(image, from);
      var second := SecondScan(image, first, first + 4);
      forall f, s :: from <= f && PairAt(image, f, s) ==> first < f || (first == f && second <= s)
  {
    var first := FirstScan(image, from);
    var second := SecondScan(image, first, first + 4);
    forall f: nat, s: nat | from <= f && PairAt(image, f, s)
      ensures first < f || (first == f && second <= s)
    {
      assert f >= first;
      if f == first {
        assert s >= second;
      }
    }
  }

  /** The corrected loop finds the least pair at or after `from`: the smallest first
      occurrence that has a partner, with its nearest partner, and finds none only
      when there is none. */
  lemma {:induction false} SafeModeLoopFindsLeastPair(image: seq<bv8>, from: nat)
    requires |image| >= 20
    ensures var r := SafeModeLoop(image, from);
      && (r.Some? ==> forall f, s :: from <= f && PairAt(image, f, s) ==> r.value.0 < f || (r.value.0 == f && r.value.1 <= s))
      && (r.None? ==> forall f, s :: from <= f ==> !PairAt(image, f, s))
    decreases |image| + 1 - from
  {
    var first := FirstScan(image, from);
    if first > ScanEnd(image) {
      NoFirstNoPair(image, from);
    } else {
      var second := SecondScan(image, first, first + 4);
      if first + MaxDistance < second {
        UnpartneredFirstNoPair(image, from);
        SafeModeLoopFindsLeastPair(image, first + 4);
      } else {
        PartneredFirstIsLeast(image, from);
      }
    }
  }

  /** UnlockSlideSupportForSafeMode as intended: the first occurrence that has a
      second one within 0x10 bytes, and that second one, are overwritten with 0xFF;
      with no such pair the image is unchanged. */
  function UnlockSlideSupportForSafeMode(image: seq<bv8>): (r: seq<bv8>)
    requires |image| >= 20
    ensures |r| == |image|
    ensures (forall f, s :: !PairAt(image, f, s)) ==> r == image
    ensures (exists f, s :: PairAt(image, f, s)) ==> exists f, s ::
      && PairAt(image, f, s)
      && r == Patch(image, f, s)
      && (forall f', s' :: PairAt(image, f', s') ==> f < f' || (f == f' && s <= s'))
  {
    SafeModeLoopFindsLeastPair(image, 0);
    match SafeModeLoop(image, 0)
    case None => image
    case Some((first, second)) => Patch(image, first, second)
  }
}
