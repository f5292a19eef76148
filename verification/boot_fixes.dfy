/** The boot-time fixes around the kernel hand-off: the kernel-entry patch and its
    undo, the runtime-only map given to SetVirtualAddressMap, the CSM region
    retype, and the two fixups that run when boot.efi jumps to the kernel. */
module BootFixes {
  import opened Types
  import MachO
  import RtShims
  import CustomSlide

  // ---------------------------------------------------------------------------
  // Kernel entry patch
  // ---------------------------------------------------------------------------

  /** Capacity of gOrigKernelCode. */
  const OrigKernelCodeCapacity: nat := 32

  /** gOrigKernelCode, gOrigKernelCodeSize and AsmKernelEntry. */
  datatype EntrySave = EntrySave(origCode: seq<bv8>, origCodeSize: nat, kernelEntry: nat)

  function InitialEntrySave(): (s: EntrySave)
    ensures |s.origCode| == OrigKernelCodeCapacity && s.origCodeSize == 0
  {
    EntrySave(seq(OrigKernelCodeCapacity, _ => 0), 0, 0)
  }

  /** CopyMem of `bytes` to address `at` of `memory`. */
  function Splice(memory: seq<bv8>, at: nat, bytes: seq<bv8>): (r: seq<bv8>)
    requires at + |bytes| <= |memory|
    ensures |r| == |memory|
    ensures r[at..at + |bytes|] == bytes
    ensures forall a :: 0 <= a < |memory| && !(at <= a < at + |bytes|) ==> r[a] == memory[a]
  {
    memory[..at] + bytes + memory[at + |bytes|..]
  }

  datatype PatchOutcome = PatchOutcome(status: Status, memory: seq<bv8>, save: EntrySave)

  /** KernelEntryPatchJump: the size of the jump code is recorded first; code longer
      than the save buffer gives EFI_NOT_FOUND before memory is touched; otherwise
      the entry bytes are saved and overwritten with the jump code. */
  function KernelEntryPatchJump(save: EntrySave, memory: seq<bv8>, kernelEntry: nat, patchCode: seq<bv8>): (r: PatchOutcome)
    requires |save.origCode| == OrigKernelCodeCapacity && kernelEntry < TwoTo32
    requires |patchCode| <= OrigKernelCodeCapacity ==> kernelEntry + |patchCode| <= |memory|
    ensures r.save.origCodeSize == |patchCode| && |r.save.origCode| == OrigKernelCodeCapacity
    ensures |patchCode| > OrigKernelCodeCapacity ==>
      && r.status == NotFound && r.memory == memory
      && r.save.origCode == save.origCode && r.save.kernelEntry == save.kernelEntry
    ensures |patchCode| <= OrigKernelCodeCapacity ==>
      && r.status == Success
      && r.save.kernelEntry == kernelEntry
      && r.save.origCode[..|patchCode|] == memory[kernelEntry..kernelEntry + |patchCode|]
      && |r.memory| == |memory|
      && r.memory[kernelEntry..kernelEntry + |patchCode|] == patchCode
      && forall a :: 0 <= a < |memory| && !(kernelEntry <= a < kernelEntry + |patchCode|) ==>
           r.memory[a] == memory[a]
  {
    var size := |patchCode|;
    if size > OrigKernelCodeCapacity then
      PatchOutcome(NotFound, memory, save.(origCodeSize := size))
    else
      var entry := kernelEntry;
      var saved := Splice(save.origCode, 0, memory[entry..entry + size]);
      assert saved[..size] == saved[0..0 + size];
      PatchOutcome(Success, Splice(memory, entry, patchCode), EntrySave(saved, size, entry))
  }

  /** The saved bytes can be copied back to the recorded entry. */
  predicate RestorableSave(save: EntrySave, memory: seq<bv8>) {
    && |save.origCode| == OrigKernelCodeCapacity
    && save.origCodeSize <= OrigKernelCodeCapacity
    && save.kernelEntry + save.origCodeSize <= |memory|
  }

  /** The CopyMem back to AsmKernelEntry done by both fixups. */
  function RestoreEntryCode(save: EntrySave, memory: seq<bv8>): (r: seq<bv8>)
    requires RestorableSave(save, memory)
    ensures |r| == |memory|
    ensures r[save.kernelEntry..save.kernelEntry + save.origCodeSize] == save.origCode[..save.origCodeSize]
  {
    Splice(memory, save.kernelEntry, save.origCode[..save.origCodeSize])
  }

  /** Restoring after a successful patch gives back the original kernel memory. */
  lemma PatchRestoreRoundTrip(save: EntrySave, memory: seq<bv8>, kernelEntry: nat, patchCode: seq<bv8>)
    requires |save.origCode| == OrigKernelCodeCapacity && kernelEntry < TwoTo32
    requires |patchCode| <= OrigKernelCodeCapacity && kernelEntry + |patchCode| <= |memory|
    ensures var p := KernelEntryPatchJump(save, memory, kernelEntry, patchCode);
      RestorableSave(p.save, p.memory) && RestoreEntryCode(p.save, p.memory) == memory
  {
    var p := KernelEntryPatchJump(save, memory, kernelEntry, patchCode);
    var e := kernelEntry;
    var n := |patchCode|;
    assert p.memory == Splice(memory, e, patchCode);
    assert p.save.origCode[..n] == memory[e..e + n];
    SpliceUndo(memory, e, patchCode);
  }

  /** Copying the overwritten bytes back over a splice undoes it. */
  lemma SpliceUndo(memory: seq<bv8>, at: nat, bytes: seq<bv8>)
    requires at + |bytes| <= |memory|
    ensures Splice(Splice(memory, at, bytes), at, memory[at..at + |bytes|]) == memory
  {
    var r := Splice(Splice(memory, at, bytes), at, memory[at..at + |bytes|]);
    forall a | 0 <= a < |memory|
      ensures r[a] == memory[a]
    {
      if at <= a < at + |bytes| {
        assert r[a] == r[at..at + |bytes|][a - at];
      }
    }
  }

  /** KernelEntryFromMachOPatchJump: no entry in the image gives EFI_NOT_FOUND; a
      nonzero slide is added; the sum is truncated to 32 bits before patching. */
  method KernelEntryFromMachOPatchJump(save: EntrySave, memory: seq<bv8>, image: MachO.MachImage,
                                       slideAddress: nat, patchCode: seq<bv8>)
    returns (r: PatchOutcome, entry: nat)
    requires MachO.WellFormed(image) && |save.origCode| == OrigKernelCodeCapacity
    requires |patchCode| <= OrigKernelCodeCapacity ==> TwoTo32 + |patchCode| <= |memory|
    ensures entry == 0 ==> r == PatchOutcome(NotFound, memory, save)
    ensures entry != 0 ==> r == KernelEntryPatchJump(save, memory, (entry + slideAddress) % TwoTo32, patchCode)
    ensures !MachO.Is32Bit(image.signature) && !MachO.Is64Bit(image.signature) ==> r == PatchOutcome(NotFound, memory, save)
    ensures (forall i :: 0 <= i < image.numCommands ==> !MachO.IsUnixThread(image.commands[i])) ==>
      r == PatchOutcome(NotFound, memory, save)
    ensures forall i: nat :: MachO.FirstThreadAt(image, i) && (MachO.Is32Bit(image.signature) || MachO.Is64Bit(image.signature)) ==>
      && entry == MachO.ThreadEntry(image.commands[i], MachO.Is64Bit(image.signature))
      && (entry != 0 ==> r == KernelEntryPatchJump(save, memory, (entry + slideAddress) % TwoTo32, patchCode))
  {
    entry := MachO.MachOGetEntryAddress(image);
    if entry == 0 {
      r := PatchOutcome(NotFound, memory, save);
      return;
    }
    assert MachO.Is32Bit(image.signature) || MachO.Is64Bit(image.signature);
    var slid := if slideAddress > 0 then entry + slideAddress else entry;
    var kernelEntry := slid % TwoTo32;
    assert kernelEntry == (entry + slideAddress) % TwoTo32;
    r := KernelEntryPatchJump(save, memory, kernelEntry, patchCode);
  }

  // ---------------------------------------------------------------------------
  // Runtime-only map for SetVirtualAddressMap
  // ---------------------------------------------------------------------------

  /** sizeof (gVirtualMemoryMap): 64 EFI_MEMORY_DESCRIPTORs of 40 bytes. */
  const VirtualMapBufferSize: nat := 64 * 40

  /** 0x7FFFFFFFFF, the mask from virtual to future physical address. */
  const KernelVirtualMask: nat := 0x80_0000_0000

  /** Descriptors that go into the virtual map: runtime ones that are not Reserved. */
  predicate GoesToVirtualMap(d: Descriptor) {
    d.memType != ReservedMemoryType && IsRuntime(d)
  }

  function RuntimeDescriptors(m: seq<Descriptor>): (r: seq<Descriptor>)
    ensures |r| <= |m|
    ensures forall i :: 0 <= i < |r| ==> GoesToVirtualMap(r[i])
  {
    if |m| == 0 then []
    else RuntimeDescriptors(m[..|m| - 1]) + (if GoesToVirtualMap(m[|m| - 1]) then [m[|m| - 1]] else [])
  }

  predicate Contains(d: Descriptor, address: nat) {
    d.physicalStart <= address < EndOf(d)
  }

  /** Where the system table copy lands once the kernel maps `d`. */
  function RelocatedAddress(d: Descriptor, sysTableRtArea: nat): nat
    requires Contains(d, sysTableRtArea)
  {
    (d.virtualStart % KernelVirtualMask + (sysTableRtArea - d.physicalStart)) % TwoTo64
  }

  /** `i` is the last descriptor of `v` holding the system table area. */
  predicate LastContaining(v: seq<Descriptor>, i: nat, sysTableRtArea: nat) {
    && i < |v|
    && Contains(v[i], sysTableRtArea)
    && forall j :: i < j < |v| ==> !Contains(v[j], sysTableRtArea)
  }

  datatype VirtualMapOutcome = VirtualMapOutcome(status: Status, virtualMap: seq<Descriptor>, relocatedSysTable: nat)

  /** ExecSetVirtualAddressesToMemMap without the page-table work: the runtime
      descriptors are copied in order; one that does not fit the buffer gives
      EFI_OUT_OF_RESOURCES; the relocated system table address comes from the last
      copied descriptor that holds it. `setStatus` is SetVirtualAddressMap's answer. */
  method ExecSetVirtualAddressesToMemMap(m: seq<Descriptor>, descriptorSize: nat, sysTableRtArea: nat,
                                         relocatedBefore: nat, setStatus: Status)
    returns (r: VirtualMapOutcome)
    requires descriptorSize > 0
    ensures var all := RuntimeDescriptors(m);
      && (|all| * descriptorSize <= VirtualMapBufferSize ==> r.status == setStatus && r.virtualMap == all)
      && (|all| * descriptorSize > VirtualMapBufferSize ==>
            && VirtualMapBufferSize / descriptorSize < |all|
            && r.status == OutOfResources && r.virtualMap == all[..VirtualMapBufferSize / descriptorSize])
    ensures r.virtualMap <= RuntimeDescriptors(m)
    ensures forall i: nat :: LastContaining(r.virtualMap, i, sysTableRtArea) ==>
      r.relocatedSysTable == RelocatedAddress(r.virtualMap[i], sysTableRtArea)
    ensures (forall i :: 0 <= i < |r.virtualMap| ==> !Contains(r.virtualMap[i], sysTableRtArea)) ==>
      r.relocatedSysTable == relocatedBefore
  {
    var virtualMap: seq<Descriptor> := [];
    var relocated: nat := relocatedBefore;
    var index: nat := 0;
    while index < |m|
      invariant CopiedSoFar(m, index, virtualMap, relocated, relocatedBefore, sysTableRtArea, descriptorSize)
    {
      var d := m[index];
      if GoesToVirtualMap(d) && (|virtualMap| + 1) * descriptorSize > VirtualMapBufferSize {
        RuntimeDescriptorsOverflow(m, index, descriptorSize);
        RuntimeDescriptorsPrefix(m, index);
        return VirtualMapOutcome(OutOfResources, virtualMap, relocated);
      }
      CopyStep(m, index, virtualMap, relocated, relocatedBefore, sysTableRtArea, descriptorSize);
      if GoesToVirtualMap(d) {
        virtualMap := virtualMap + [d];
        if Contains(d, sysTableRtArea) {
          relocated := RelocatedAddress(d, sysTableRtArea);
        }
      }
      assert CopiedSoFar(m, index + 1, virtualMap, relocated, relocatedBefore, sysTableRtArea, descriptorSize);
      index := index + 1;
    }
    assert m[..|m|] == m;
    return VirtualMapOutcome(setStatus, virtualMap, relocated);
  }

  /** The copy loop's invariant: the runtime descriptors of the first `index` are
      copied, they fit the buffer, and the relocated address is kept up to date. */
  ghost predicate CopiedSoFar(m: seq<Descriptor>, index: nat, v: seq<Descriptor>, relocated: nat,
                              relocatedBefore: nat, sysTableRtArea: nat, descriptorSize: nat) {
    && index <= |m|
    && v == RuntimeDescriptors(m[..index])
    && |v| * descriptorSize <= VirtualMapBufferSize
    && TracksSystemTable(v, relocated, relocatedBefore, sysTableRtArea)
  }

  /** One turn of the copy loop when the descriptor, if copied, still fits. */
  lemma CopyStep(m: seq<Descriptor>, index: nat, v: seq<Descriptor>, relocated: nat,
                 relocatedBefore: nat, sysTableRtArea: nat, descriptorSize: nat)
    requires index < |m| && CopiedSoFar(m, index, v, relocated, relocatedBefore, sysTableRtArea, descriptorSize)
    requires GoesToVirtualMap(m[index]) ==> (|v| + 1) * descriptorSize <= VirtualMapBufferSize
    ensures var d := m[index];
      var copied := GoesToVirtualMap(d);
      CopiedSoFar(m, index + 1, if copied then v + [d] else v,
                  if copied && Contains(d, sysTableRtArea) then RelocatedAddress(d, sysTableRtArea) else relocated,
                  relocatedBefore, sysTableRtArea, descriptorSize)
  {
    var d := m[index];
    RuntimeDescriptorsStep(m, index);
    if GoesToVirtualMap(d) {
      TracksAppend(v, d, relocated, relocatedBefore, sysTableRtArea);
      assert |v + [d]| == |v| + 1;
    }
  }

  /** `relocated` is the relocated address from the last descriptor of `v` holding
      the system table area, or the address from before when none holds it. */
  ghost predicate TracksSystemTable(v: seq<Descriptor>, relocated: nat, relocatedBefore: nat, sysTableRtArea: nat) {
    && (forall i: nat :: LastContaining(v, i, sysTableRtArea) ==> relocated == RelocatedAddress(v[i], sysTableRtArea))
    && ((forall i :: 0 <= i < |v| ==> !Contains(v[i], sysTableRtArea)) ==> relocated == relocatedBefore)
  }

  /** Copying one more descriptor keeps the tracked address up to date. */
  lemma TracksAppend(v: seq<Descriptor>, d: Descriptor, relocated: nat, relocatedBefore: nat, sysTableRtArea: nat)
    requires TracksSystemTable(v, relocated, relocatedBefore, sysTableRtArea)
    ensures TracksSystemTable(v + [d], if Contains(d, sysTableRtArea) then RelocatedAddress(d, sysTableRtArea) else relocated,
                              relocatedBefore, sysTableRtArea)
  {
    AppendContaining(v, d, sysTableRtArea);
    assert (v + [d])[|v|] == d;
  }

  lemma RuntimeDescriptorsStep(m: seq<Descriptor>, index: nat)
    requires index < |m|
    ensures RuntimeDescriptors(m[..index + 1])
      == RuntimeDescriptors(m[..index]) + (if GoesToVirtualMap(m[index]) then [m[index]] else [])
  {
    assert m[..index + 1][..index] == m[..index];
  }

  /** Appending a descriptor to the copied list: it becomes the last holder of the
      system table area if it holds it; otherwise nothing changes on that score. */
  lemma AppendContaining(v: seq<Descriptor>, d: Descriptor, sysTableRtArea: nat)
    ensures Contains(d, sysTableRtArea) ==>
      forall i: nat :: LastContaining(v + [d], i, sysTableRtArea) <==> i == |v|
    ensures !Contains(d, sysTableRtArea) ==>
      && (forall i: nat :: LastContaining(v + [d], i, sysTableRtArea) <==> LastContaining(v, i, sysTableRtArea))
      && ((forall i :: 0 <= i < |v + [d]| ==> !Contains((v + [d])[i], sysTableRtArea))
          <==> (forall i :: 0 <= i < |v| ==> !Contains(v[i], sysTableRtArea)))
  {
    var w := v + [d];
    assert forall i :: 0 <= i < |v| ==> w[i] == v[i];
    assert w[|v|] == d;
    if Contains(d, sysTableRtArea) {
      forall i: nat | LastContaining(w, i, sysTableRtArea)
        ensures i == |v|
      {
      }
    } else {
      forall i: nat | LastContaining(v, i, sysTableRtArea)
        ensures LastContaining(w, i, sysTableRtArea)
      {
      }
    }
  }

  /** The runtime list of a prefix is a prefix of the whole list. */
  lemma {:induction false} RuntimeDescriptorsPrefix(m: seq<Descriptor>, n: nat)
    requires n <= |m|
    ensures |RuntimeDescriptors(m[..n])| <= |RuntimeDescriptors(m)|
    ensures RuntimeDescriptors(m[..n]) == RuntimeDescriptors(m)[..|RuntimeDescriptors(m[..n])|]
    decreases |m| - n
  {
    if n < |m| {
      RuntimeDescriptorsPrefix(m, n + 1);
      assert m[..n + 1][..n] == m[..n];
    } else {
      assert m[..n] == m;
    }
  }

  /** Where the copy loop runs out of room: the list so far is exactly as long as
      the buffer allows, and the whole list is longer. */
  lemma RuntimeDescriptorsOverflow(m: seq<Descriptor>, index: nat, descriptorSize: nat)
    requires descriptorSize > 0 && index < |m| && GoesToVirtualMap(m[index])
    requires |RuntimeDescriptors(m[..index])| * descriptorSize <= VirtualMapBufferSize
    requires (|RuntimeDescriptors(m[..index])| + 1) * descriptorSize > VirtualMapBufferSize
    ensures var all := RuntimeDescriptors(m);
      && |all| * descriptorSize > VirtualMapBufferSize
      && VirtualMapBufferSize / descriptorSize < |all|
      && RuntimeDescriptors(m[..index]) == all[..VirtualMapBufferSize / descriptorSize]
  {
    var all := RuntimeDescriptors(m);
    var k := |RuntimeDescriptors(m[..index])|;
    assert |all| >= k + 1 by {
      RuntimeDescriptorsPrefix(m, index + 1);
      assert m[..index + 1][..index] == m[..index];
    }
    OverflowArithmetic(k, |all|, descriptorSize);
    RuntimeDescriptorsPrefix(m, index);
  }

  /** The buffer holds k descriptors but not k + 1, so it cannot hold more than k
      and holds exactly k whole ones. */
  lemma OverflowArithmetic(k: nat, total: nat, descriptorSize: nat)
    requires descriptorSize > 0 && total >= k + 1
    requires k * descriptorSize <= VirtualMapBufferSize < (k + 1) * descriptorSize
    ensures total * descriptorSize > VirtualMapBufferSize
    ensures VirtualMapBufferSize / descriptorSize == k
  {
    MulMonotone(k + 1, total, descriptorSize);
    DivisionPinned(k, descriptorSize, VirtualMapBufferSize);
  }

  // ---------------------------------------------------------------------------
  // CSM region
  // ---------------------------------------------------------------------------

  /** A boot-services data descriptor that reaches into the legacy region just below
      640 KiB (start below 0xA0000, end at or above 0x9E000). */
  predicate CsmCandidate(d: Descriptor) {
    d.physicalStart < 0xA0000 && EndOf(d) >= 0x9E000 && d.memType == BootServicesData
  }

  predicate FirstCsmCandidate(m: seq<Descriptor>, i: nat) {
    && i < |m|
    && CsmCandidate(m[i])
    && forall j :: 0 <= j < i ==> !CsmCandidate(m[j])
  }

  /** ProtectCsmRegion: the first candidate becomes ACPI NVS and nothing else in the
      map changes. */
  function ProtectCsmRegion(m: seq<Descriptor>): (r: seq<Descriptor>)
    ensures |r| == |m|
    ensures forall i: nat :: i < |m| ==>
      r[i] == if FirstCsmCandidate(m, i) then m[i].(memType := AcpiMemoryNvs) else m[i]
  {
    if |m| == 0 then []
    else if CsmCandidate(m[0]) then
      FirstCandidateLeads(m);
      [m[0].(memType := AcpiMemoryNvs)] + m[1..]
    else
      var rest := ProtectCsmRegion(m[1..]);
      FirstCandidateShifts(m);
      [m[0]] + rest
  }

  /** A candidate in front is the first one, and no later descriptor is. */
  lemma FirstCandidateLeads(m: seq<Descriptor>)
    requires |m| > 0 && CsmCandidate(m[0])
    ensures FirstCsmCandidate(m, 0)
    ensures forall i: nat :: 0 < i < |m| ==> !FirstCsmCandidate(m, i)
  {
  }

  /** Past a descriptor that is no candidate, the first candidate is that of the rest. */
  lemma FirstCandidateShifts(m: seq<Descriptor>)
    requires |m| > 0 && !CsmCandidate(m[0])
    ensures !FirstCsmCandidate(m, 0)
    ensures forall i: nat :: 0 < i < |m| ==> (FirstCsmCandidate(m, i) <==> FirstCsmCandidate(m[1..], i - 1))
  {
    forall i: nat | 0 < i < |m|
      ensures FirstCsmCandidate(m, i) <==> FirstCsmCandidate(m[1..], i - 1)
    {
      if FirstCsmCandidate(m[1..], i - 1) {
        forall j | 0 <= j < i
          ensures !CsmCandidate(m[j])
        {
          if j > 0 {
            assert m[j] == m[1..][j - 1];
          }
        }
      }
    }
  }

  /** At most one descriptor is retyped, and only its type changes. */
  lemma {:induction false} ProtectCsmRegionRetypesAtMostOne(m: seq<Descriptor>, i: nat, j: nat)
    requires i < |m| && j < |m|
    requires ProtectCsmRegion(m)[i] != m[i] && ProtectCsmRegion(m)[j] != m[j]
    ensures i == j
    ensures ProtectCsmRegion(m)[i] == m[i].(memType := AcpiMemoryNvs)
  {
    assert FirstCsmCandidate(m, i) && FirstCsmCandidate(m, j);
  }

  // ---------------------------------------------------------------------------
  // Fixups at the jump to the kernel
  // ---------------------------------------------------------------------------

  datatype BootFixOutcome = BootFixOutcome(
    restored: CustomSlide.RestoreOutcome,
    memoryMap: seq<Descriptor>,
    memory: seq<bv8>)

  /** FixBootingWithoutRelocBlock: csr-active-config and the command line are put
      back (the slide is hidden), the protected runtime types are restored in the
      kernel's map, and the entry bytes are copied back. */
  function FixBootingWithoutRelocBlock(slide: CustomSlide.SlideState, save: EntrySave, memory: seq<bv8>,
                                       csrFieldPresent: bool, commandLine: seq<char>,
                                       memoryMap: seq<Descriptor>, table: seq<RtShims.RelocInfo>): (r: BootFixOutcome)
    requires RestorableSave(save, memory)
    ensures r.restored.csrWrite.Some? <==> csrFieldPresent && slide.csrSet
    ensures r.restored.csrWrite.Some? ==> r.restored.csrWrite.value == slide.csrValue
    ensures r.restored.state.validSlides == [] && r.restored.state.stored == []
    ensures |r.memoryMap| == |memoryMap|
    ensures forall i :: 0 <= i < |memoryMap| ==> r.memoryMap[i] == memoryMap[i].(memType := r.memoryMap[i].memType)
    ensures |r.memory| == |memory|
    ensures r.memory[save.kernelEntry..save.kernelEntry + save.origCodeSize] == save.origCode[..save.origCodeSize]
  {
    BootFixOutcome(
      CustomSlide.RestoreCustomSlideOverrides(slide, csrFieldPresent, commandLine),
      RtShims.RestoreProtectedRtMemoryTypes(memoryMap, table),
      RestoreEntryCode(save, memory))
  }

  /** A normal boot undoes what the driver did to the map and the kernel image: with
      the table recorded when the map was protected and the bytes saved when the
      entry was patched, the kernel gets its original map types and entry code. */
  lemma NormalBootUndoesPreparation(slide: CustomSlide.SlideState, save: EntrySave, memory: seq<bv8>,
                                    kernelEntry: nat, patchCode: seq<bv8>, csrFieldPresent: bool,
                                    commandLine: seq<char>, memoryMap: seq<Descriptor>, sysTableArea: nat)
    requires |save.origCode| == OrigKernelCodeCapacity && kernelEntry < TwoTo32
    requires |patchCode| <= OrigKernelCodeCapacity && kernelEntry + |patchCode| <= |memory|
    requires RtShims.DistinctStarts(memoryMap)
    requires RtShims.ProtectedCount(memoryMap, sysTableArea) <= RtShims.MaxRtRelocNum
    ensures var patched := KernelEntryPatchJump(save, memory, kernelEntry, patchCode);
      var protected := RtShims.ProtectRtMemoryFromRelocation(memoryMap, sysTableArea);
      RestorableSave(patched.save, patched.memory)
      && var r := FixBootingWithoutRelocBlock(slide, patched.save, patched.memory, csrFieldPresent, commandLine,
                                              protected.memoryMap, protected.table);
      r.memoryMap == memoryMap && r.memory == memory
  {
    PatchRestoreRoundTrip(save, memory, kernelEntry, patchCode);
    RtShims.ProtectRestoreRoundTrip(memoryMap, sysTableArea);
  }

  /** The fields of IOHibernateImageHeader the wake fixup touches. */
  datatype HibernateHeader = HibernateHeader(systemTableOffset: nat, runtimePages: nat)

  /** One IOHibernateHandoff record of the chain the wake fixup walks. */
  datatype Handoff = Handoff(handoffType: nat, bytecount: nat)

  /** Hand-off record types from XNU's hibernation interface: the base value, which
      is also the end marker, and the memory-map record. */
  const HandoffTypeBase: nat := 0x686f_0000
  const HandoffTypeEnd: nat := HandoffTypeBase
  const HandoffTypeMemoryMap: nat := HandoffTypeBase + 3

  /** The chain ends: some record carries the end marker. */
  predicate Terminated(chain: seq<Handoff>) {
    exists i :: 0 <= i < |chain| && chain[i].handoffType == HandoffTypeEnd
  }

  /** The records the kernel reads: those before the first end marker. */
  function VisibleChain(chain: seq<Handoff>): (r: seq<Handoff>)
    ensures |r| <= |chain|
    ensures forall i :: 0 <= i < |r| ==> r[i] == chain[i] && r[i].handoffType != HandoffTypeEnd
  {
    if |chain| == 0 || chain[0].handoffType == HandoffTypeEnd then []
    else [chain[0]] + VisibleChain(chain[1..])
  }

  /** The walk of the force-old-memory-map branch: the first memory-map record
      before the end marker is given the base type, which ends the chain there. */
  function DisableMemoryMapHandoff(chain: seq<Handoff>): (r: seq<Handoff>)
    requires Terminated(chain)
    ensures |r| == |chain|
    ensures forall i :: 0 <= i < |chain| ==> r[i].bytecount == chain[i].bytecount
  {
    if chain[0].handoffType == HandoffTypeEnd then chain
    else if chain[0].handoffType == HandoffTypeMemoryMap then [chain[0].(handoffType := HandoffTypeBase)] + chain[1..]
    else
      assert Terminated(chain[1..]) by {
        var i :| 0 <= i < |chain| && chain[i].handoffType == HandoffTypeEnd;
        assert chain[1..][i - 1] == chain[i];
      }
      [chain[0]] + DisableMemoryMapHandoff(chain[1..])
  }

  /** Terminated chains stay terminated past a first record that is not the end. */
  lemma TerminatedTail(chain: seq<Handoff>)
    requires Terminated(chain) && chain[0].handoffType != HandoffTypeEnd
    ensures Terminated(chain[1..])
  {
    var i :| 0 <= i < |chain| && chain[i].handoffType == HandoffTypeEnd;
    assert chain[1..][i - 1] == chain[i];
  }

  predicate NoMemoryMapRecord(chain: seq<Handoff>) {
    forall i :: 0 <= i < |chain| ==> chain[i].handoffType != HandoffTypeMemoryMap
  }

  /** After the walk the kernel sees no memory-map record. */
  lemma {:induction false} DisableMemoryMapHandoffHidesMap(chain: seq<Handoff>)
    requires Terminated(chain)
    ensures NoMemoryMapRecord(VisibleChain(DisableMemoryMapHandoff(chain)))
  {
    var d := DisableMemoryMapHandoff(chain);
    if chain[0].handoffType == HandoffTypeEnd {
      assert VisibleChain(d) == [];
    } else if chain[0].handoffType == HandoffTypeMemoryMap {
      assert d[0].handoffType == HandoffTypeEnd;
      assert VisibleChain(d) == [];
    } else {
      TerminatedTail(chain);
      var tail := DisableMemoryMapHandoff(chain[1..]);
      assert d[1..] == tail;
      var v := VisibleChain(d);
      assert v == [chain[0]] + VisibleChain(tail);
      DisableMemoryMapHandoffHidesMap(chain[1..]);
      var vt := VisibleChain(tail);
      assert NoMemoryMapRecord(vt);
      forall i | 0 < i < |v|
        ensures v[i].handoffType != HandoffTypeMemoryMap
      {
        assert v[i] == vt[i - 1];
      }
    }
  }

  /** Every record the kernel still sees is one it saw before, in the same order. */
  lemma {:induction false} DisableMemoryMapHandoffKeepsPrefix(chain: seq<Handoff>)
    requires Terminated(chain)
    ensures var v := VisibleChain(DisableMemoryMapHandoff(chain));
      |v| <= |VisibleChain(chain)| && v == VisibleChain(chain)[..|v|]
  {
    var d := DisableMemoryMapHandoff(chain);
    if chain[0].handoffType == HandoffTypeEnd {
      assert VisibleChain(d) == [];
    } else if chain[0].handoffType == HandoffTypeMemoryMap {
      assert d[0].handoffType == HandoffTypeEnd;
      assert VisibleChain(d) == [];
    } else {
      TerminatedTail(chain);
      PassedRecordVisible(chain);
      DisableMemoryMapHandoffKeepsPrefix(chain[1..]);
      PrefixCons(chain[0], VisibleChain(DisableMemoryMapHandoff(chain[1..])), VisibleChain(chain[1..]));
    }
  }

  /** A record the walk passes over stays visible ahead of the rest of the walk. */
  lemma PassedRecordVisible(chain: seq<Handoff>)
    requires Terminated(chain) && Terminated(chain[1..])
    requires chain[0].handoffType != HandoffTypeEnd && chain[0].handoffType != HandoffTypeMemoryMap
    ensures VisibleChain(DisableMemoryMapHandoff(chain))
      == [chain[0]] + VisibleChain(DisableMemoryMapHandoff(chain[1..]))
    ensures VisibleChain(chain) == [chain[0]] + VisibleChain(chain[1..])
  {
    var d := DisableMemoryMapHandoff(chain);
    assert d[1..] == DisableMemoryMapHandoff(chain[1..]);
  }

  /** A prefix stays a prefix with the same record put in front of both. */
  lemma PrefixCons<T>(x: T, v: seq<T>, w: seq<T>)
    requires |v| <= |w| && v == w[..|v|]
    ensures |[x] + v| <= |[x] + w| && [x] + v == ([x] + w)[..|[x] + v|]
  {
  }

  /** When no memory-map record precedes the end marker the chain is left alone. */
  lemma {:induction false} DisableMemoryMapHandoffWithoutMap(chain: seq<Handoff>)
    requires Terminated(chain)
    requires NoMemoryMapRecord(VisibleChain(chain))
    ensures DisableMemoryMapHandoff(chain) == chain
  {
    if chain[0].handoffType != HandoffTypeEnd {
      TerminatedTail(chain);
      var v := VisibleChain(chain);
      assert v[0] == chain[0];
      assert forall k :: 0 <= k < |VisibleChain(chain[1..])| ==> VisibleChain(chain[1..])[k] == v[k + 1];
      DisableMemoryMapHandoffWithoutMap(chain[1..]);
    }
  }

  datatype WakeFixOutcome = WakeFixOutcome(header: HibernateHeader, handoffs: seq<Handoff>, memory: seq<bv8>)

  /** FixHibernateWakeWithoutRelocBlock (force-old-memory-map configuration): the
      header points at the relocated system table, counted from the runtime pages
      and truncated to 32 bits; the memory-map hand-off is disabled; the entry bytes
      are copied back. */
  function FixHibernateWakeWithoutRelocBlock(header: HibernateHeader, handoffs: seq<Handoff>,
                                             relocatedSysTable: nat, save: EntrySave, memory: seq<bv8>): (r: WakeFixOutcome)
    requires Terminated(handoffs) && RestorableSave(save, memory)
    ensures r.header.runtimePages == header.runtimePages
    ensures (r.header.systemTableOffset + header.runtimePages - relocatedSysTable) % TwoTo32 == 0
    ensures r.header.systemTableOffset < TwoTo32
    ensures |r.memory| == |memory|
    ensures r.memory[save.kernelEntry..save.kernelEntry + save.origCodeSize] == save.origCode[..save.origCodeSize]
    ensures r.handoffs == DisableMemoryMapHandoff(handoffs)
    ensures NoMemoryMapRecord(VisibleChain(r.handoffs))
    ensures var v := VisibleChain(r.handoffs); |v| <= |VisibleChain(handoffs)| && v == VisibleChain(handoffs)[..|v|]
  {
    DisableMemoryMapHandoffHidesMap(handoffs);
    DisableMemoryMapHandoffKeepsPrefix(handoffs);
    var offset := (relocatedSysTable - header.runtimePages) % TwoTo32;
    WakeFixOutcome(header.(systemTableOffset := offset), DisableMemoryMapHandoff(handoffs),
                   RestoreEntryCode(save, memory))
  }
}
