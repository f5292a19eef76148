/** The fixed instance tables of the AMI input shims. A slot is free while its device
    handle is NULL (0 here); installing on a handle claims the first free slot unless
    some other slot already holds that handle. */
module ShimSlots {
  import Types

  datatype Claim = Claimed(index: nat) | AlreadyStarted | NoFreeSlot

  /** The device handle of every slot of an instance table, in slot order. */
  function HandlesOf<T>(slots: seq<T>, handle: T -> nat): (h: seq<nat>)
    ensures |h| == |slots| && forall i :: 0 <= i < |slots| ==> h[i] == handle(slots[i])
  {
    seq(|slots|, i requires 0 <= i < |slots| => handle(slots[i]))
  }

  /** Slot `i` is free and every slot before it is taken. */
  predicate FirstFree(handles: seq<nat>, i: nat) {
    i < |handles| && handles[i] == 0 && forall j :: 0 <= j < i ==> handles[j] != 0
  }

  /** Slot `j` holds `handle` and is not the slot the scan keeps as its free pick,
      which is the one slot the scan never compares. */
  predicate Duplicate(handles: seq<nat>, handle: nat, j: nat) {
    j < |handles| && handles[j] == handle && !FirstFree(handles, j)
  }

  /** The install scan: the first free slot is remembered, any other slot holding the
      handle ends the scan with EFI_ALREADY_STARTED, and without a free slot the
      result is EFI_OUT_OF_RESOURCES. */
  method ClaimSlot(handles: seq<nat>, handle: nat) returns (r: Claim)
    ensures r.AlreadyStarted? <==> exists j: nat :: Duplicate(handles, handle, j)
    ensures r.Claimed? ==> FirstFree(handles, r.index)
    ensures r.NoFreeSlot? ==> forall j :: 0 <= j < |handles| ==> handles[j] != 0
  {
    var free: nat := |handles|;
    var index := 0;
    while index < |handles|
      invariant index <= |handles| && free <= |handles|
      invariant free == |handles| ==> forall j :: 0 <= j < index ==> handles[j] != 0
      invariant free < |handles| ==> free < index && FirstFree(handles, free)
      invariant forall j: nat :: j < index ==> !Duplicate(handles, handle, j)
    {
      if handles[index] == 0 && free == |handles| {
        free := index;
      } else if handles[index] == handle {
        assert Duplicate(handles, handle, index);
        return AlreadyStarted;
      }
      index := index + 1;
    }
    if free == |handles| {
      return NoFreeSlot;
    }
    return Claimed(free);
  }

  /** The first slot from `from` on whose value is `value`: the shims' lookup of the
      instance a protocol call arrives on. */
  function FindFirst(values: seq<nat>, value: nat, from: nat): (r: Types.Option<nat>)
    requires from <= |values|
    ensures r.None? <==> forall i :: from <= i < |values| ==> values[i] != value
    ensures r.Some? ==>
      && from <= r.value < |values| && values[r.value] == value
      && forall j :: from <= j < r.value ==> values[j] != value
    decreases |values| - from
  {
    if from == |values| then Types.None
    else if values[from] == value then Types.Some(from)
    else FindFirst(values, value, from + 1)
  }
}
