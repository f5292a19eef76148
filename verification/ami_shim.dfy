/** The AMI input translator driver: the modifier remap it configures for its
    keycode shim, its entry point and its one-shot ExitBootServices handler. */
module AmiShim {
  import opened Types
  import opened InputKeys

  /** The driver's configuration: shift and control keep their own bits, the alt
      pair takes the GUI bits and the GUI pair the alt bits, so that a PC keyboard
      gets the Apple layout. */
  const AmiShimModifierConfig: seq<nat> := [RightShift, RightControl, RightGui, RightAlt]

  /** The position whose default bit modifier `i` reports under the driver's
      configuration: alt and GUI trade places. */
  function AltGuiSwap(i: ModifierIndex): ModifierIndex {
    if i == RightAlt then RightGui
    else if i == LeftAlt then LeftGui
    else if i == RightGui then RightAlt
    else if i == LeftGui then LeftAlt
    else i
  }

  /** The remap the configuration loop yields. */
  const SwappedRemap: Remap :=
    [HidRightShift, HidLeftShift, HidRightControl, HidLeftControl,
     HidRightGui, HidLeftGui, HidRightAlt, HidLeftAlt]

  /** AmiShimConfigureModifierMap: the default bits permuted by the alt/GUI swap. */
  function ConfigureModifierMap(): (r: Remap)
    ensures r == SwappedRemap
    ensures forall i: ModifierIndex :: r[i] == DefaultModifierMap[AltGuiSwap(i)]
  {
    ConfigureRemap(AmiShimModifierConfig)
  }

  /** The configured remap rearranges the eight default bits without losing or
      duplicating any. */
  lemma ConfiguredRemapIsPermutation()
    ensures multiset(ConfigureModifierMap()) == multiset(DefaultModifierMap)
  {
    var shiftControl: seq<ModifierMap> := [HidRightShift, HidLeftShift, HidRightControl, HidLeftControl];
    var alt: seq<ModifierMap> := [HidRightAlt, HidLeftAlt];
    var gui: seq<ModifierMap> := [HidRightGui, HidLeftGui];
    assert ConfigureModifierMap() == shiftControl + gui + alt by {
      assert SwappedRemap == shiftControl + gui + alt;
    }
    assert DefaultModifierMap == shiftControl + alt + gui;
    calc {
      multiset(shiftControl + gui + alt);
      multiset(shiftControl) + multiset(gui) + multiset(alt);
      multiset(shiftControl) + multiset(alt) + multiset(gui);
      multiset(shiftControl + alt + gui);
    }
  }

  /** Under the driver's remap each pressed modifier reports exactly its own entry,
      which by the alt/GUI swap is the HID bit of its counterpart. */
  lemma ConfiguredRemapExact(state: ShiftState)
    ensures ReportsExactly(ConfigureModifierMap(), state, TranslateModifiers(ConfigureModifierMap(), state))
  {
    assert DisjointEntries(SwappedRemap);
    DisjointRemapExact(SwappedRemap, state);
  }

  /** Driver-wide state: the remap in force, whether the exit work has run, and
      whether the ExitBootServices event exists. */
  datatype ShimState = ShimState(modifierRemap: Remap, performedExit: bool, exitEventCreated: bool)

  /** AmiShimTranslatorEntryPoint: configures the remap and reports success even
      when the ExitBootServices event could not be created. The pointer and keycode
      installers run in between; they are not part of this model. */
  function EntryPoint(createEventStatus: Status): (r: (Status, ShimState))
    ensures r.0 == Success
    ensures r.1.modifierRemap == ConfigureModifierMap() && !r.1.performedExit
    ensures r.1.exitEventCreated <==> !IsError(createEventStatus)
  {
    (Success, ShimState(ConfigureModifierMap(), false, !IsError(createEventStatus)))
  }

  /** The exit handler's effect: the event is closed and both shims are shut down,
      or nothing happens. */
  datatype ExitWork = ExitWork(closeEvent: bool, pointerExit: bool, keycodeExit: bool)

  const NoExitWork := ExitWork(false, false, false)
  const FullExitWork := ExitWork(true, true, true)

  /** AmiShimTranslatorExitBootServicesHandler. */
  function ExitBootServicesHandler(st: ShimState): (r: (ShimState, ExitWork))
    ensures r.0.performedExit
    ensures r.1 == (if st.performedExit then NoExitWork else FullExitWork)
    ensures r.0.modifierRemap == st.modifierRemap
  {
    if st.performedExit then (st, NoExitWork)
    else (st.(performedExit := true), FullExitWork)
  }

  /** However often the handler is signalled, the shutdown work happens once. */
  lemma ExitHandlerActsOnce(st: ShimState)
    ensures var first := ExitBootServicesHandler(st);
      ExitBootServicesHandler(first.0).1 == NoExitWork
  {
  }
}
