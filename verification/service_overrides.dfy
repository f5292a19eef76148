/** The boot- and runtime-services hooks AptioMemoryFix installs while boot.efi
    runs: what each hook does around the firmware call it wraps, and the global
    bookkeeping (allocation bounds, hibernate image address, descriptor size) that
    the kernel-entry fixups use later. Firmware calls are oracles: their answers
    are parameters, and the table checksum is a function parameter. */
module ServiceOverrides {
  import opened Types
  import MachO
  import MemoryMap
  import RtShims
  import BootFixes

  // ---------------------------------------------------------------------------
  // Service tables

  /** What a service-table slot points at: a firmware routine or one of the hooks. */
  datatype Service =
    | Firmware(id: nat)
    | MOAllocatePagesHook
    | MOGetMemoryMapHook
    | MOExitBootServicesHook
    | MOHandleProtocolHook
    | MOSetVirtualAddressMapHook

  /** The EFI_BOOT_SERVICES slots the hooks touch, every other slot, and the header
      checksum. */
  datatype BootServices = BootServices(
    allocatePages: Service,
    getMemoryMap: Service,
    exitBootServices: Service,
    handleProtocol: Service,
    otherSlots: seq<Service>,
    crc32: nat)

  /** The EFI_RUNTIME_SERVICES slot the hook touches, the rest, and the checksum. */
  datatype RuntimeServices = RuntimeServices(
    setVirtualAddressMap: Service,
    otherSlots: seq<Service>,
    crc32: nat)

  /** gStored*: the four boot-services routines the hooks replaced. */
  datatype StoredBootServices = StoredBootServices(
    allocatePages: Service,
    getMemoryMap: Service,
    exitBootServices: Service,
    handleProtocol: Service)

  /** gStoredSetVirtualAddressMap and the runtime table checksum before install. */
  datatype StoredRuntimeServices = StoredRuntimeServices(setVirtualAddressMap: Service, preOverridesCrc32: nat)

  /** The header checksum is consistent: CalculateCrc32 over the table with the
      checksum field zeroed. */
  predicate BsCrcConsistent(bs: BootServices, crc: BootServices -> nat) {
    bs.crc32 == crc(bs.(crc32 := 0))
  }

  /** InstallBsOverrides: the four routines are saved and replaced by the hooks,
      nothing else changes, and the checksum is recomputed. */
  function InstallBsOverrides(bs: BootServices, crc: BootServices -> nat): (r: (BootServices, StoredBootServices))
    ensures r.1 == StoredBootServices(bs.allocatePages, bs.getMemoryMap, bs.exitBootServices, bs.handleProtocol)
    ensures r.0.allocatePages == MOAllocatePagesHook && r.0.getMemoryMap == MOGetMemoryMapHook
    ensures r.0.exitBootServices == MOExitBootServicesHook && r.0.handleProtocol == MOHandleProtocolHook
    ensures r.0.otherSlots == bs.otherSlots
    ensures BsCrcConsistent(r.0, crc)
  {
    var hooked := BootServices(MOAllocatePagesHook, MOGetMemoryMapHook, MOExitBootServicesHook,
                               MOHandleProtocolHook, bs.otherSlots, 0);
    (hooked.(crc32 := crc(hooked)),
     StoredBootServices(bs.allocatePages, bs.getMemoryMap, bs.exitBootServices, bs.handleProtocol))
  }

  /** UninstallBsOverrides: the saved routines go back and the checksum is
      recomputed. */
  function UninstallBsOverrides(bs: BootServices, stored: StoredBootServices, crc: BootServices -> nat): (r: BootServices)
    ensures r.allocatePages == stored.allocatePages && r.getMemoryMap == stored.getMemoryMap
    ensures r.exitBootServices == stored.exitBootServices && r.handleProtocol == stored.handleProtocol
    ensures r.otherSlots == bs.otherSlots
    ensures BsCrcConsistent(r, crc)
  {
    var restored := BootServices(stored.allocatePages, stored.getMemoryMap, stored.exitBootServices,
                                 stored.handleProtocol, bs.otherSlots, 0);
    restored.(crc32 := crc(restored))
  }

  /** Install then uninstall gives back the table exactly, provided its checksum was
      consistent to begin with (it is recomputed, not saved). */
  lemma BsOverridesRoundTrip(bs: BootServices, crc: BootServices -> nat)
    requires BsCrcConsistent(bs, crc)
    ensures var (hooked, stored) := InstallBsOverrides(bs, crc);
      UninstallBsOverrides(hooked, stored, crc) == bs
  {
    var (hooked, stored) := InstallBsOverrides(bs, crc);
    var r := UninstallBsOverrides(hooked, stored, crc);
    assert r.(crc32 := 0) == bs.(crc32 := 0);
  }

  /** InstallRtOverrides: the checksum and SetVirtualAddressMap are saved, the hook
      replaces it and the checksum is recomputed. */
  function InstallRtOverrides(rt: RuntimeServices, crc: RuntimeServices -> nat): (r: (RuntimeServices, StoredRuntimeServices))
    ensures r.1 == StoredRuntimeServices(rt.setVirtualAddressMap, rt.crc32)
    ensures r.0.setVirtualAddressMap == MOSetVirtualAddressMapHook && r.0.otherSlots == rt.otherSlots
    ensures r.0.crc32 == crc(r.0.(crc32 := 0))
  {
    var hooked := RuntimeServices(MOSetVirtualAddressMapHook, rt.otherSlots, 0);
    (hooked.(crc32 := crc(hooked)), StoredRuntimeServices(rt.setVirtualAddressMap, rt.crc32))
  }

  /** UninstallRtOverrides: the saved routine and the saved checksum go back. */
  function UninstallRtOverrides(rt: RuntimeServices, stored: StoredRuntimeServices): (r: RuntimeServices)
    ensures r.setVirtualAddressMap == stored.setVirtualAddressMap
    ensures r.crc32 == stored.preOverridesCrc32 && r.otherSlots == rt.otherSlots
  {
    RuntimeServices(stored.setVirtualAddressMap, rt.otherSlots, stored.preOverridesCrc32)
  }

  /** The runtime round trip is exact, whatever the checksum was: it is saved, not
      recomputed. */
  lemma RtOverridesRoundTrip(rt: RuntimeServices, crc: RuntimeServices -> nat)
    ensures var (hooked, stored) := InstallRtOverrides(rt, crc);
      UninstallRtOverrides(hooked, stored) == rt
  {
  }

  // ---------------------------------------------------------------------------
  // Global bookkeeping

  /** The globals the hooks keep between calls. */
  datatype HookState = HookState(
    minAllocated: nat,
    maxAllocated: nat,
    hibernateWake: bool,
    hibernateImageAddress: nat,
    descriptorSize: nat)

  /** EFI_ALLOCATE_TYPE values (section 7.2 of the UEFI Specification). */
  const AllocateAnyPages: nat := 0
  const AllocateMaxAddress: nat := 1
  const AllocateAddress: nat := 2

  /** One AllocatePages call: its arguments and what the firmware routine answered
      (status and the address written back). */
  datatype AllocCall = AllocCall(allocType: nat, memType: nat, pages: nat, memory: nat,
                                 firmwareStatus: Status, firmwareAddress: nat)

  /** The call boot.efi makes to place the kernel image. */
  predicate IsKernelPlacement(c: AllocCall) {
    c.allocType == AllocateAddress && c.memType == LoaderData
  }

  /** The call boot.efi makes for the hibernate image during wake. */
  predicate IsHibernateImageAlloc(st: HookState, c: AllocCall) {
    !IsKernelPlacement(c) && st.hibernateWake && c.allocType == AllocateAnyPages && c.memType == LoaderData
  }

  /** End of the range a placement asks for, on a 64-bit address. */
  function PlacementEnd(c: AllocCall): nat {
    (c.memory + PagesToSize(c.pages)) % TwoTo64
  }

  /** What MOAllocatePages gives back: the new globals, the status and address of
      the forwarded call. */
  datatype AllocOutcome = AllocOutcome(state: HookState, status: Status, memory: nat)

  /** MOAllocatePages: every call is forwarded unchanged and its answer returned; a
      kernel placement first lowers the minimum (replacing it while it is 0) and
      raises the maximum to the range end; during wake the first successful
      any-pages loader allocation records the hibernate image address. */
  function MOAllocatePages(st: HookState, c: AllocCall): (r: AllocOutcome)
    ensures r.status == c.firmwareStatus && r.memory == c.firmwareAddress
    ensures r.state.hibernateWake == st.hibernateWake && r.state.descriptorSize == st.descriptorSize
    ensures IsKernelPlacement(c) ==>
      && (r.state.minAllocated == if st.minAllocated == 0 || c.memory < st.minAllocated then c.memory else st.minAllocated)
      && r.state.maxAllocated >= st.maxAllocated && r.state.maxAllocated >= PlacementEnd(c)
      && (r.state.maxAllocated == st.maxAllocated || r.state.maxAllocated == PlacementEnd(c))
    ensures !IsKernelPlacement(c) ==> r.state.minAllocated == st.minAllocated && r.state.maxAllocated == st.maxAllocated
    ensures r.state.hibernateImageAddress != st.hibernateImageAddress ==>
      IsHibernateImageAlloc(st, c) && st.hibernateImageAddress == 0 && c.firmwareStatus == Success
      && r.state.hibernateImageAddress == c.firmwareAddress
  {
    if IsKernelPlacement(c) then
      var upper := PlacementEnd(c);
      var lo := if st.minAllocated == 0 || c.memory < st.minAllocated then c.memory else st.minAllocated;
      var hi := if upper > st.maxAllocated then upper else st.maxAllocated;
      AllocOutcome(st.(minAllocated := lo, maxAllocated := hi), c.firmwareStatus, c.firmwareAddress)
    else if st.hibernateWake && c.allocType == AllocateAnyPages && c.memType == LoaderData then
      var image := if st.hibernateImageAddress == 0 && c.firmwareStatus == Success
        then c.firmwareAddress else st.hibernateImageAddress;
      AllocOutcome(st.(hibernateImageAddress := image), c.firmwareStatus, c.firmwareAddress)
    else
      AllocOutcome(st, c.firmwareStatus, c.firmwareAddress)
  }

  /** The globals after a run of AllocatePages calls. */
  function Replay(st: HookState, calls: seq<AllocCall>): (r: HookState)
    ensures r.hibernateWake == st.hibernateWake
  {
    if |calls| == 0 then st else MOAllocatePages(Replay(st, calls[..|calls| - 1]), calls[|calls| - 1]).state
  }

  /** Call `i` is a kernel placement at a nonzero address. */
  predicate PlacedAt(calls: seq<AllocCall>, i: nat) {
    i < |calls| && IsKernelPlacement(calls[i]) && calls[i].memory != 0
  }

  /** The bounds after a run of calls, starting from 0/0 as RunImageWithOverrides
      does: the minimum is the lowest nonzero placement address and the maximum the
      highest placement end. */
  lemma {:induction false} ReplayTracksPlacements(st: HookState, calls: seq<AllocCall>)
    requires st.minAllocated == 0 && st.maxAllocated == 0
    requires forall i :: 0 <= i < |calls| && IsKernelPlacement(calls[i]) ==> calls[i].memory != 0
    ensures var r := Replay(st, calls);
      && (forall i: nat :: PlacedAt(calls, i) ==> 0 < r.minAllocated <= calls[i].memory)
      && (r.minAllocated != 0 ==> exists i: nat :: PlacedAt(calls, i) && r.minAllocated == calls[i].memory)
      && (forall i :: 0 <= i < |calls| && IsKernelPlacement(calls[i]) ==> PlacementEnd(calls[i]) <= r.maxAllocated)
      && (r.maxAllocated != 0 ==> exists i :: 0 <= i < |calls| && IsKernelPlacement(calls[i]) && r.maxAllocated == PlacementEnd(calls[i]))
  {
    if |calls| > 0 {
      var p := calls[..|calls| - 1];
      var c := calls[|calls| - 1];
      ReplayTracksPlacements(st, p);
      var before := Replay(st, p);
      var r := Replay(st, calls);
      assert r == MOAllocatePages(before, c).state;
      assert forall i :: 0 <= i < |p| ==> p[i] == calls[i];
      forall i: nat | PlacedAt(calls, i)
        ensures 0 < r.minAllocated <= calls[i].memory
      {
        if i < |p| {
          assert PlacedAt(p, i);
        }
      }
      if r.minAllocated != 0 {
        if r.minAllocated == before.minAllocated {
          var j: nat :| PlacedAt(p, j) && before.minAllocated == p[j].memory;
          assert PlacedAt(calls, j);
        } else {
          assert PlacedAt(calls, |calls| - 1);
        }
      }
      if r.maxAllocated != 0 {
        if r.maxAllocated == before.maxAllocated {
          var j :| 0 <= j < |p| && IsKernelPlacement(p[j]) && before.maxAllocated == PlacementEnd(p[j]);
          assert calls[j] == p[j];
        } else {
          assert IsKernelPlacement(c) && r.maxAllocated == PlacementEnd(c);
        }
      }
    }
  }

  /** Call `j` is the first that records the hibernate image: a successful
      any-pages loader allocation returning a nonzero address. */
  predicate Captures(st: HookState, c: AllocCall) {
    IsHibernateImageAlloc(st, c) && c.firmwareStatus == Success && c.firmwareAddress != 0
  }

  predicate FirstCaptureAt(st: HookState, calls: seq<AllocCall>, j: nat) {
    && j < |calls| && Captures(st, calls[j])
    && forall k :: 0 <= k < j ==> !Captures(st, calls[k])
  }

  /** During wake, the recorded address is the first successful any-pages loader
      allocation's; later ones are ignored, and with none it stays 0. */
  lemma {:induction false} ReplayCapturesFirstImage(st: HookState, calls: seq<AllocCall>)
    requires st.hibernateImageAddress == 0
    ensures forall j: nat :: FirstCaptureAt(st, calls, j) ==> Replay(st, calls).hibernateImageAddress == calls[j].firmwareAddress
    ensures (forall k :: 0 <= k < |calls| ==> !Captures(st, calls[k])) ==> Replay(st, calls).hibernateImageAddress == 0
  {
    if |calls| > 0 {
      var p := calls[..|calls| - 1];
      var c := calls[|calls| - 1];
      ReplayCapturesFirstImage(st, p);
      var before := Replay(st, p);
      assert forall i :: 0 <= i < |p| ==> p[i] == calls[i];
      assert IsHibernateImageAlloc(before, c) == IsHibernateImageAlloc(st, c);
      forall j: nat | FirstCaptureAt(st, calls, j)
        ensures Replay(st, calls).hibernateImageAddress == calls[j].firmwareAddress
      {
        if j < |p| {
          assert FirstCaptureAt(st, p, j);
        } else {
          assert forall k :: 0 <= k < |p| ==> !Captures(st, p[k]);
        }
      }
    }
  }

  // ---------------------------------------------------------------------------
  // GetMemoryMap

  /** What MOGetMemoryMap gives back. */
  datatype MapOutcome = MapOutcome(status: Status, memoryMap: seq<Descriptor>, mapSize: nat, state: HookState)

  /** MOGetMemoryMap: on success the legacy region is protected, the map is
      shrunk, and the descriptor size is remembered; any other status passes
      through with the buffer and the globals untouched. */
  method MOGetMemoryMap(st: HookState, firmwareStatus: Status, m: seq<Descriptor>, descriptorSize: nat)
    returns (r: MapOutcome)
    requires firmwareStatus == Success ==> |m| > 0
    ensures r.status == firmwareStatus
    ensures firmwareStatus != Success ==> r.memoryMap == m && r.mapSize == |m| * descriptorSize && r.state == st
    ensures firmwareStatus == Success ==>
      && r.memoryMap == MemoryMap.Shrink(BootFixes.ProtectCsmRegion(m))
      && r.mapSize == |r.memoryMap| * descriptorSize && |r.memoryMap| <= |m|
      && TotalPages(r.memoryMap) == TotalPages(m)
      && r.state == st.(descriptorSize := descriptorSize)
  {
    if firmwareStatus != Success {
      return MapOutcome(firmwareStatus, m, |m| * descriptorSize, st);
    }
    var protected := BootFixes.ProtectCsmRegion(m);
    var shrunk, size := MemoryMap.ShrinkMemMap(protected, descriptorSize);
    RetypePreservesPages(m, protected);
    MemoryMap.ShrinkPreservesPages(protected);
    r := MapOutcome(firmwareStatus, shrunk, size, st.(descriptorSize := descriptorSize));
  }

  /** Maps that differ only in descriptor types hold the same number of pages. */
  lemma {:induction false} RetypePreservesPages(a: seq<Descriptor>, b: seq<Descriptor>)
    requires |a| == |b| && forall i :: 0 <= i < |a| ==> a[i].pages == b[i].pages
    ensures TotalPages(a) == TotalPages(b)
  {
    if |a| > 0 {
      RetypePreservesPages(a[..|a| - 1], b[..|b| - 1]);
    }
  }

  // ---------------------------------------------------------------------------
  // HandleProtocol

  /** MOHandleProtocol: the stored routine's answer stands unless it failed for the
      graphics output protocol, in which case LocateProtocol's status is returned
      and its interface handed out only when it succeeded. */
  function MOHandleProtocol(storedStatus: Status, storedInterface: Option<nat>, isGraphicsOutput: bool,
                            locateStatus: Status, locateInterface: nat): (r: (Status, Option<nat>))
    ensures !IsError(storedStatus) || !isGraphicsOutput ==> r == (storedStatus, storedInterface)
    ensures IsError(storedStatus) && isGraphicsOutput ==>
      && r.0 == locateStatus
      && r.1 == if locateStatus == Success then Some(locateInterface) else storedInterface
  {
    if IsError(storedStatus) && isGraphicsOutput then
      (locateStatus, if locateStatus == Success then Some(locateInterface) else storedInterface)
    else
      (storedStatus, storedInterface)
  }

  // ---------------------------------------------------------------------------
  // ExitBootServices

  /** Where the kernel's low image begins relative to the lowest placement. */
  const BaseKernelAddress: nat := 0x10_0000
  const MachOImageOffset: nat := 0x20_0000

  /** The IOHibernateImageHeader fields the wake patch reads: the offset of the
      file-extent map inside the header, its size, and the restore code offset. */
  datatype HibernateImageInfo = HibernateImageInfo(fileExtentMapOffset: nat, fileExtentMapSize: nat, restore1CodeOffset: nat)

  /** What MOExitBootServices did: its status, whether the firmware routine ran,
      the kernel memory and entry save afterwards, and the addresses it used. */
  datatype ExitOutcome = ExitOutcome(
    status: Status,
    exited: bool,
    memory: seq<bv8>,
    save: BootFixes.EntrySave,
    slideAddress: nat,
    imageAddress: nat)

  /** The 32-bit address of the wake entry inside the hibernate image. */
  function HibernateEntry(imageAddress: nat, info: HibernateImageInfo): (a: nat)
    ensures a < TwoTo32
  {
    ((imageAddress + info.fileExtentMapOffset) % TwoTo32 + info.fileExtentMapSize + info.restore1CodeOffset) % TwoTo32
  }

  /** MOExitBootServices: during wake without a recorded image it refuses before
      exiting; an error from exiting is returned before anything is patched; after a
      normal exit the kernel entry is patched at the slide below the lowest
      placement (the patch result is ignored); after a wake exit the entry inside
      the hibernate image is patched. `exitStatus` is ForceExitBootServices'
      answer and `kernelImage` the Mach-O header found at the image address. */
  method MOExitBootServices(st: HookState, save: BootFixes.EntrySave, memory: seq<bv8>, exitStatus: Status,
                            kernelImage: MachO.MachImage, info: HibernateImageInfo, patchCode: seq<bv8>)
    returns (r: ExitOutcome)
    requires MachO.WellFormed(kernelImage) && |save.origCode| == BootFixes.OrigKernelCodeCapacity
    requires |patchCode| <= BootFixes.OrigKernelCodeCapacity ==> TwoTo32 + |patchCode| <= |memory|
    ensures st.hibernateWake && st.hibernateImageAddress == 0 ==>
      r.status == InvalidParameter && !r.exited && r.memory == memory && r.save == save
    ensures !(st.hibernateWake && st.hibernateImageAddress == 0) ==> r.exited && r.status == exitStatus
    ensures IsError(exitStatus) ==> r.memory == memory && r.save == save
    ensures !st.hibernateWake && !IsError(exitStatus) ==>
      && r.slideAddress == (st.minAllocated - BaseKernelAddress) % TwoTo64
      && r.imageAddress == (r.slideAddress + MachOImageOffset) % TwoTo64
      && (forall i: nat :: MachO.FirstThreadAt(kernelImage, i) && KnownSignature(kernelImage) ==>
            PatchedAt(save, memory, r, MachO.ThreadEntry(kernelImage.commands[i], MachO.Is64Bit(kernelImage.signature)),
                      r.slideAddress, patchCode))
      && (!KnownSignature(kernelImage)
          || (forall i :: 0 <= i < kernelImage.numCommands ==> !MachO.IsUnixThread(kernelImage.commands[i])) ==>
            r.memory == memory && r.save == save)
    ensures st.hibernateWake && st.hibernateImageAddress != 0 && !IsError(exitStatus) ==>
      var p := BootFixes.KernelEntryPatchJump(save, memory, HibernateEntry(st.hibernateImageAddress, info), patchCode);
      r.memory == p.memory && r.save == p.save
  {
    if st.hibernateWake && st.hibernateImageAddress == 0 {
      return ExitOutcome(InvalidParameter, false, memory, save, 0, 0);
    }
    if IsError(exitStatus) {
      return ExitOutcome(exitStatus, true, memory, save, 0, 0);
    }
    if !st.hibernateWake {
      var slide := (st.minAllocated - BaseKernelAddress) % TwoTo64;
      var image := (slide + MachOImageOffset) % TwoTo64;
      var p, entry := BootFixes.KernelEntryFromMachOPatchJump(save, memory, kernelImage, slide, patchCode);
      r := ExitOutcome(exitStatus, true, p.memory, p.save, slide, image);
      assert PatchedAt(save, memory, r, entry, slide, patchCode);
      forall i: nat | MachO.FirstThreadAt(kernelImage, i) && KnownSignature(kernelImage)
        ensures PatchedAt(save, memory, r, MachO.ThreadEntry(kernelImage.commands[i], MachO.Is64Bit(kernelImage.signature)),
                          r.slideAddress, patchCode)
      {
        assert entry == MachO.ThreadEntry(kernelImage.commands[i], MachO.Is64Bit(kernelImage.signature));
      }
    } else {
      var p := BootFixes.KernelEntryPatchJump(save, memory, HibernateEntry(st.hibernateImageAddress, info), patchCode);
      r := ExitOutcome(exitStatus, true, p.memory, p.save, 0, 0);
    }
  }

  /** The Mach-O header carries the 32- or 64-bit magic. */
  predicate KnownSignature(image: MachO.MachImage) {
    MachO.Is32Bit(image.signature) || MachO.Is64Bit(image.signature)
  }

  /** The normal-boot patch: nothing changes when no entry was found, otherwise the
      entry plus the slide, truncated to 32 bits, is patched. */
  predicate PatchedAt(save: BootFixes.EntrySave, memory: seq<bv8>, r: ExitOutcome, entry: nat, slide: nat, patchCode: seq<bv8>)
    requires |save.origCode| == BootFixes.OrigKernelCodeCapacity
    requires |patchCode| <= BootFixes.OrigKernelCodeCapacity ==> TwoTo32 + |patchCode| <= |memory|
  {
    if entry == 0 then r.memory == memory && r.save == save
    else
      var p := BootFixes.KernelEntryPatchJump(save, memory, (entry + slide) % TwoTo32, patchCode);
      r.memory == p.memory && r.save == p.save
  }

  // ---------------------------------------------------------------------------
  // SetVirtualAddressMap

  /** What MOSetVirtualAddressMap leaves behind: its status, the restored runtime
      table, the protected map and relocation table, the virtual map handed to the
      firmware, the 32-bit system table address kept for the copy, and the
      relocated system table address. */
  datatype VirtualizeOutcome = VirtualizeOutcome(
    status: Status,
    runtimeServices: RuntimeServices,
    protection: RtShims.Protection,
    virtualMap: seq<Descriptor>,
    efiSystemTable: nat,
    relocatedSysTable: nat)

  /** MOSetVirtualAddressMap: the runtime hook is removed first, then the runtime
      areas are protected, then the protected map is virtualized; the status is the
      virtualization's. `setStatus` is the firmware routine's answer and
      `systemTable` the physical address of the system table. */
  method MOSetVirtualAddressMap(rt: RuntimeServices, stored: StoredRuntimeServices, m: seq<Descriptor>,
                                descriptorSize: nat, sysTableRtArea: nat, systemTable: nat,
                                relocatedBefore: nat, setStatus: Status)
    returns (r: VirtualizeOutcome)
    requires descriptorSize > 0
    ensures r.runtimeServices == UninstallRtOverrides(rt, stored)
    ensures r.protection == RtShims.ProtectRtMemoryFromRelocation(m, sysTableRtArea)
    ensures r.efiSystemTable == systemTable % TwoTo32
    ensures var all := BootFixes.RuntimeDescriptors(r.protection.memoryMap);
      && (|all| * descriptorSize <= BootFixes.VirtualMapBufferSize ==> r.status == setStatus && r.virtualMap == all)
      && (|all| * descriptorSize > BootFixes.VirtualMapBufferSize ==> r.status == OutOfResources)
      && r.virtualMap <= all
  {
    var restoredRt := UninstallRtOverrides(rt, stored);
    var protection := RtShims.ProtectRtMemoryFromRelocation(m, sysTableRtArea);
    var efiSystemTable := systemTable % TwoTo32;
    var v := BootFixes.ExecSetVirtualAddressesToMemMap(protection.memoryMap, descriptorSize, sysTableRtArea,
                                                       relocatedBefore, setStatus);
    r := VirtualizeOutcome(v.status, restoredRt, protection, v.virtualMap, efiSystemTable, v.relocatedSysTable);
  }

  /** Protection does not change which descriptors the kernel maps: the protected
      map's runtime descriptors are the original ones, with only types changed. */
  lemma {:induction false} ProtectionKeepsVirtualMap(m: seq<Descriptor>, sysTableArea: nat)
    ensures var before := BootFixes.RuntimeDescriptors(m);
      var after := BootFixes.RuntimeDescriptors(RtShims.ProtectRtMemoryFromRelocation(m, sysTableArea).memoryMap);
      && |after| == |before|
      && forall i :: 0 <= i < |before| ==> after[i] == before[i].(memType := after[i].memType)
  {
    var pm := RtShims.ProtectRtMemoryFromRelocation(m, sysTableArea).memoryMap;
    RetypedRuntimeDescriptors(m, pm, sysTableArea);
  }

  lemma {:induction false} RetypedRuntimeDescriptors(m: seq<Descriptor>, pm: seq<Descriptor>, sysTableArea: nat)
    requires |pm| == |m|
    requires forall i :: 0 <= i < |m| ==>
      pm[i] == if RtShims.ShouldProtect(m[i], sysTableArea) then m[i].(memType := MemoryMappedIo) else m[i]
    ensures var before := BootFixes.RuntimeDescriptors(m);
      var after := BootFixes.RuntimeDescriptors(pm);
      && |after| == |before|
      && forall i :: 0 <= i < |before| ==> after[i] == before[i].(memType := after[i].memType)
  {
    if |m| > 0 {
      RetypedRuntimeDescriptors(m[..|m| - 1], pm[..|pm| - 1], sysTableArea);
      var d := m[|m| - 1];
      assert BootFixes.GoesToVirtualMap(d) == BootFixes.GoesToVirtualMap(pm[|pm| - 1]);
    }
  }
}
