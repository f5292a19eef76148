/** The driver's top level: the entry point that hooks StartImage, the hook that
    recognises boot.efi and runs it with the service overrides in place, and the
    callback the patched kernel entry jumps to. Firmware answers are parameters;
    NVRAM is a map from variable name to contents under Apple's boot GUID. */
module AptioMemoryFix {
  import opened Types
  import Utils
  import CustomSlide
  import ServiceOverrides
  import RtShims
  import BootFixes

  // ---------------------------------------------------------------------------
  // Entry point

  /** What gBS->StartImage points at. */
  datatype StartImageRoutine = FirmwareStartImage(id: nat) | DetectBooterStartImageHook

  /** The driver-visible state of the boot services table and the driver. */
  datatype DriverState = DriverState(
    markerInstalled: bool,
    startImage: StartImageRoutine,
    savedStartImage: Option<StartImageRoutine>,
    crc32: nat)

  /** AptioMemoryFixEntrypoint: when the marker protocol is already installed the
      driver refuses with EFI_ALREADY_STARTED and changes nothing; otherwise it
      installs the marker, keeps the original StartImage, puts its own in place
      and recomputes the checksum. */
  function AptioMemoryFixEntrypoint(st: DriverState, crc: DriverState -> nat): (r: (Status, DriverState))
    ensures st.markerInstalled ==> r == (AlreadyStarted, st)
    ensures !st.markerInstalled ==>
      && r.0 == Success
      && r.1.markerInstalled
      && r.1.startImage == DetectBooterStartImageHook
      && r.1.savedStartImage == Some(st.startImage)
      && r.1.crc32 == crc(r.1.(crc32 := 0))
  {
    if st.markerInstalled then (AlreadyStarted, st)
    else
      var hooked := DriverState(true, DetectBooterStartImageHook, Some(st.startImage), 0);
      (Success, hooked.(crc32 := crc(hooked)))
  }

  /** Loading the driver a second time never hooks StartImage twice: the original
      routine stays the one saved. */
  lemma EntrypointHooksOnce(st: DriverState, crc: DriverState -> nat)
    requires !st.markerInstalled
    ensures var once := AptioMemoryFixEntrypoint(st, crc).1;
      var twice := AptioMemoryFixEntrypoint(once, crc);
      && twice == (AlreadyStarted, once)
      && twice.1.savedStartImage == Some(st.startImage)
  {
  }

  // ---------------------------------------------------------------------------
  // Running boot.efi

  /** The loaded-image fields the driver touches: the image bytes and the system
      table pointer it will be started with. */
  datatype LoadedImage = LoadedImage(filePath: seq<Utils.DevicePathNode>, imageBytes: seq<bv8>, systemTable: nat)

  /** What RunImageWithOverrides leaves behind: its status, whether the image was
      started, the service tables afterwards, the image as started, and the hook
      globals the image started with. */
  datatype RunOutcome = RunOutcome(
    status: Status,
    started: bool,
    bootServices: ServiceOverrides.BootServices,
    runtimeServices: ServiceOverrides.RuntimeServices,
    image: LoadedImage,
    startState: ServiceOverrides.HookState)

  /** RunImageWithOverrides: a failure to prepare the kernel jump or the page pool
      is returned before anything is installed; otherwise the overrides go in, the
      allocation bounds are cleared, the image is pointed at the runtime copy of the
      system table and unlocked for safe-mode slides, it is started, and after it
      returns every override is removed and its status returned as it is.
      `startStatus` is the original StartImage's answer. */
  method RunImageWithOverrides(prepareStatus: Status, poolStatus: Status,
                               bs: ServiceOverrides.BootServices, bsCrc: ServiceOverrides.BootServices -> nat,
                               rt: ServiceOverrides.RuntimeServices, rtCrc: ServiceOverrides.RuntimeServices -> nat,
                               image: LoadedImage, sysTableRtArea: nat,
                               hooks: ServiceOverrides.HookState, startStatus: Status)
    returns (r: RunOutcome)
    requires |image.imageBytes| >= 20
    ensures IsError(prepareStatus) ==> r == RunOutcome(prepareStatus, false, bs, rt, image, hooks)
    ensures !IsError(prepareStatus) && IsError(poolStatus) ==> r == RunOutcome(poolStatus, false, bs, rt, image, hooks)
    ensures !IsError(prepareStatus) && !IsError(poolStatus) ==>
      && r.started && r.status == startStatus
      && r.runtimeServices == rt
      && (ServiceOverrides.BsCrcConsistent(bs, bsCrc) ==> r.bootServices == bs)
      && r.image.systemTable == sysTableRtArea
      && r.image.imageBytes == CustomSlide.UnlockSlideSupportForSafeMode(image.imageBytes)
      && r.startState == hooks.(minAllocated := 0, maxAllocated := 0)
  {
    if IsError(prepareStatus) {
      return RunOutcome(prepareStatus, false, bs, rt, image, hooks);
    }
    if IsError(poolStatus) {
      return RunOutcome(poolStatus, false, bs, rt, image, hooks);
    }
    var (hookedBs, storedBs) := ServiceOverrides.InstallBsOverrides(bs, bsCrc);
    var (hookedRt, storedRt) := ServiceOverrides.InstallRtOverrides(rt, rtCrc);
    var startState := hooks.(minAllocated := 0, maxAllocated := 0);
    var started := image.(systemTable := sysTableRtArea,
                          imageBytes := CustomSlide.UnlockSlideSupportForSafeMode(image.imageBytes));
    var finalBs := ServiceOverrides.UninstallBsOverrides(hookedBs, storedBs, bsCrc);
    var finalRt := ServiceOverrides.UninstallRtOverrides(hookedRt, storedRt);
    if ServiceOverrides.BsCrcConsistent(bs, bsCrc) {
      ServiceOverrides.BsOverridesRoundTrip(bs, bsCrc);
    }
    ServiceOverrides.RtOverridesRoundTrip(rt, rtCrc);
    r := RunOutcome(startStatus, true, finalBs, finalRt, started, startState);
  }

  // ---------------------------------------------------------------------------
  // StartImage hook

  /** "boot.efi" as UCS-2. */
  const BootEfiName: seq<Utils.Char16> := [0x62, 0x6F, 0x6F, 0x74, 0x2E, 0x65, 0x66, 0x69]

  /** NVRAM variable names under Apple's boot GUID. */
  const AptioFixFlag: string := "aptiofixflag"
  const RecoveryBootMode: string := "recovery-boot-mode"

  /** The hook's own globals: how many boot.efi starts it has seen, the NVRAM, and
      whether the current start is a hibernate wake. */
  datatype DetectState = DetectState(nestedCount: nat, nvram: map<string, seq<bv8>>, hibernateWake: bool)

  /** How a StartImage call ended. */
  datatype StartOutcome =
    | Rejected(status: Status)
    | Forwarded(status: Status)
    | ColdReset(nvram: map<string, seq<bv8>>)
    | Booted(status: Status, state: DetectState)

  /** The NVRAM after the recovery hand-over: a pending aptiofixflag becomes
      recovery-boot-mode and is deleted. */
  function MoveRecoveryFlag(nvram: map<string, seq<bv8>>): (r: map<string, seq<bv8>>)
    ensures AptioFixFlag !in r
    ensures AptioFixFlag in nvram ==> RecoveryBootMode in r && r[RecoveryBootMode] == nvram[AptioFixFlag]
    ensures AptioFixFlag !in nvram ==> r == nvram
    ensures forall k :: k in nvram && k != AptioFixFlag && k != RecoveryBootMode ==> k in r && r[k] == nvram[k]
  {
    if AptioFixFlag in nvram then nvram[RecoveryBootMode := nvram[AptioFixFlag]] - {AptioFixFlag} else nvram
  }

  /** The image path names boot.efi: its text exists and contains "boot.efi" in any
      ASCII case. */
  ghost predicate IsBooterPath(path: Option<seq<Utils.Char16>>) {
    path.Some? && exists i: nat :: Utils.MatchAt(path.value, BootEfiName, i)
  }

  /** DetectBooterStartImage: without a loaded-image record the call is rejected
      with EFI_INVALID_PARAMETER; an image whose path does not name boot.efi goes to
      the original StartImage; for boot.efi the recovery flag is handed over, a
      nested start with recovery-boot-mode set stores aptiofixflag and cold-resets,
      the counter goes up, hibernate wake is decided by the boot-switch-vars size
      probe, and the image runs with the overrides. `originalStatus` is the
      original StartImage's answer, `switchVarsProbe` GetVariable's answer for the
      size probe, `bootStatus` RunImageWithOverrides' status, and `pathAllocated`
      whether AllocatePool gave FileDevicePathToStr a buffer: without one the path
      text is NULL and even boot.efi goes to the original StartImage. */
  method DetectBooterStartImage(st: DetectState, loadedImageStatus: Status, image: LoadedImage, pathAllocated: bool,
                                originalStatus: Status, switchVarsProbe: Status, bootStatus: Status)
    returns (r: StartOutcome)
    requires Utils.WalkBounded(image.filePath, Utils.PathNodeBudget)
    ensures IsError(loadedImageStatus) ==> r == Rejected(InvalidParameter)
    ensures !IsError(loadedImageStatus) && !pathAllocated ==> r == Forwarded(originalStatus)
    ensures !IsError(loadedImageStatus) && !IsBooterPath(Utils.FileDevicePathToStr(image.filePath, pathAllocated)) ==>
      r == Forwarded(originalStatus)
    ensures !IsError(loadedImageStatus) && IsBooterPath(Utils.FileDevicePathToStr(image.filePath, pathAllocated)) ==>
      var nvram := MoveRecoveryFlag(st.nvram);
      && (RecoveryBootMode in nvram && st.nestedCount > 0 ==>
            r == ColdReset(nvram[AptioFixFlag := nvram[RecoveryBootMode]]))
      && (!(RecoveryBootMode in nvram && st.nestedCount > 0) ==>
            r == Booted(bootStatus, DetectState(st.nestedCount + 1, nvram, switchVarsProbe == BufferTooSmall)))
  {
    if IsError(loadedImageStatus) {
      return Rejected(InvalidParameter);
    }
    var path := Utils.FileDevicePathToStr(image.filePath, pathAllocated);
    var found := None;
    if path.Some? {
      found := Utils.StrStriBasic(path.value, BootEfiName);
    }
    if found.None? {
      return Forwarded(originalStatus);
    }
    var nvram := MoveRecoveryFlag(st.nvram);
    if RecoveryBootMode in nvram && st.nestedCount > 0 {
      return ColdReset(nvram[AptioFixFlag := nvram[RecoveryBootMode]]);
    }
    var hibernateWake := switchVarsProbe == BufferTooSmall;
    return Booted(bootStatus, DetectState(st.nestedCount + 1, nvram, hibernateWake));
  }

  /** The first boot.efi start never resets, and a flag left by a reset reaches
      the next start as recovery-boot-mode, so the boot that follows a reset runs. */
  lemma FirstBooterStartRuns(st: DetectState, loadedImageStatus: Status, image: LoadedImage, pathAllocated: bool,
                             originalStatus: Status, switchVarsProbe: Status, bootStatus: Status)
    requires Utils.WalkBounded(image.filePath, Utils.PathNodeBudget)
    requires st.nestedCount == 0 && !IsError(loadedImageStatus)
    requires IsBooterPath(Utils.FileDevicePathToStr(image.filePath, pathAllocated))
    ensures var nvram := MoveRecoveryFlag(st.nvram);
      AptioFixFlag in st.nvram ==> nvram[RecoveryBootMode] == st.nvram[AptioFixFlag] && AptioFixFlag !in nvram
  {
  }

  // ---------------------------------------------------------------------------
  // Kernel entry callback

  /** The inputs of the normal-boot fixup. */
  datatype BootFixArgs = BootFixArgs(
    slide: CustomSlide.SlideState,
    save: BootFixes.EntrySave,
    memory: seq<bv8>,
    csrFieldPresent: bool,
    commandLine: seq<char>,
    memoryMap: seq<Descriptor>,
    table: seq<RtShims.RelocInfo>)

  /** The inputs of the wake fixup. */
  datatype WakeFixArgs = WakeFixArgs(
    header: BootFixes.HibernateHeader,
    handoffs: seq<BootFixes.Handoff>,
    relocatedSysTable: nat,
    save: BootFixes.EntrySave,
    memory: seq<bv8>)

  /** Which fixup ran and what it produced. */
  datatype JumpBackOutcome = BootFixed(boot: BootFixes.BootFixOutcome) | WakeFixed(wake: BootFixes.WakeFixOutcome)

  /** The kernel memory after the fixup that ran. */
  function FixedMemory(r: JumpBackOutcome): seq<bv8> {
    if r.BootFixed? then r.boot.memory else r.wake.memory
  }

  /** KernelEntryPatchJumpBack: the normal-boot fixup on a normal boot, the wake
      fixup on a hibernate wake; either way the kernel entry bytes are put back. */
  function KernelEntryPatchJumpBack(hibernateWake: bool, boot: BootFixArgs, wake: WakeFixArgs): (r: JumpBackOutcome)
    requires !hibernateWake ==> BootFixes.RestorableSave(boot.save, boot.memory)
    requires hibernateWake ==> BootFixes.Terminated(wake.handoffs) && BootFixes.RestorableSave(wake.save, wake.memory)
    ensures r.BootFixed? <==> !hibernateWake
    ensures var save := if hibernateWake then wake.save else boot.save;
      var memory := if hibernateWake then wake.memory else boot.memory;
      && |FixedMemory(r)| == |memory|
      && FixedMemory(r)[save.kernelEntry..save.kernelEntry + save.origCodeSize] == save.origCode[..save.origCodeSize]
  {
    if !hibernateWake then
      BootFixed(BootFixes.FixBootingWithoutRelocBlock(boot.slide, boot.save, boot.memory, boot.csrFieldPresent,
                                                      boot.commandLine, boot.memoryMap, boot.table))
    else
      WakeFixed(BootFixes.FixHibernateWakeWithoutRelocBlock(wake.header, wake.handoffs, wake.relocatedSysTable,
                                                            wake.save, wake.memory))
  }

  /** The jump back undoes the entry patch: when the kernel memory and the save
      buffer handed to the fixup are those KernelEntryPatchJump produced, the
      kernel runs on its original bytes, on a normal boot and on a wake alike. */
  lemma JumpBackUndoesEntryPatch(hibernateWake: bool, boot: BootFixArgs, wake: WakeFixArgs,
                                 save: BootFixes.EntrySave, original: seq<bv8>, kernelEntry: nat, patchCode: seq<bv8>)
    requires |save.origCode| == BootFixes.OrigKernelCodeCapacity && kernelEntry < TwoTo32
    requires |patchCode| <= BootFixes.OrigKernelCodeCapacity && kernelEntry + |patchCode| <= |original|
    requires var p := BootFixes.KernelEntryPatchJump(save, original, kernelEntry, patchCode);
      if hibernateWake then wake.save == p.save && wake.memory == p.memory && BootFixes.Terminated(wake.handoffs)
      else boot.save == p.save && boot.memory == p.memory
    ensures (if hibernateWake then BootFixes.RestorableSave(wake.save, wake.memory)
             else BootFixes.RestorableSave(boot.save, boot.memory))
      && FixedMemory(KernelEntryPatchJumpBack(hibernateWake, boot, wake)) == original
  {
    BootFixes.PatchRestoreRoundTrip(save, original, kernelEntry, patchCode);
  }
}
