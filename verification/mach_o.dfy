/** Reading the kernel entry point out of a Mach-O image: the header's signature
    selects the 32- or 64-bit layout and the load commands are walked to the first
    LC_UNIXTHREAD, whose thread state holds the entry address. */
module MachO {

  /** Header signatures of the Mach-O format, native and byte-swapped. */
  const MachHeaderSignature: bv32 := 0xFEED_FACE
  const MachHeaderInvertSignature: bv32 := 0xCEFA_EDFE
  const MachHeader64Signature: bv32 := 0xFEED_FACF
  const MachHeader64InvertSignature: bv32 := 0xCFFA_EDFE

  /** LC_UNIXTHREAD. */
  const LoadCommandUnixThread: bv32 := 0x5

  /** A load command as the walk sees it: its type and, for a thread command, the
      instruction pointers of the 32- and 64-bit x86 thread states. */
  datatype LoadCommand = LoadCommand(commandType: bv32, eip: bv32, rip: bv64)

  /** The header fields the walk reads and the commands that follow it. */
  datatype MachImage = MachImage(signature: bv32, numCommands: nat, commands: seq<LoadCommand>)

  /** The image holds every command its header announces. */
  predicate WellFormed(image: MachImage) {
    image.numCommands <= |image.commands|
  }

  predicate Is32Bit(signature: bv32) {
    signature == MachHeaderSignature || signature == MachHeaderInvertSignature
  }

  predicate Is64Bit(signature: bv32) {
    signature == MachHeader64Signature || signature == MachHeader64InvertSignature
  }

  predicate IsUnixThread(c: LoadCommand) {
    c.commandType == LoadCommandUnixThread
  }

  /** Command `i` is announced, is LC_UNIXTHREAD, and no earlier one is. */
  predicate FirstThreadAt(image: MachImage, i: nat)
    requires WellFormed(image)
  {
    && i < image.numCommands
    && IsUnixThread(image.commands[i])
    && forall j :: 0 <= j < i ==> !IsUnixThread(image.commands[j])
  }

  /** Entry address a thread command yields for the header's width; fields are read
      as stored, without byte swapping. */
  function ThreadEntry(c: LoadCommand, wide: bool): nat {
    if wide then c.rip as nat else c.eip as nat
  }

  /** MachOGetEntryAddress: the entry of the first LC_UNIXTHREAD among the announced
      commands; 0 for an unknown signature or when there is no such command. */
  method MachOGetEntryAddress(image: MachImage) returns (address: nat)
    requires WellFormed(image)
    ensures !Is32Bit(image.signature) && !Is64Bit(image.signature) ==> address == 0
    ensures (forall i :: 0 <= i < image.numCommands ==> !IsUnixThread(image.commands[i])) ==> address == 0
    ensures forall i: nat :: FirstThreadAt(image, i) && (Is32Bit(image.signature) || Is64Bit(image.signature)) ==>
      address == ThreadEntry(image.commands[i], Is64Bit(image.signature))
  {
    address := 0;
    var wide: bool;
    if Is32Bit(image.signature) {
      wide := false;
    } else if Is64Bit(image.signature) {
      wide := true;
    } else {
      return;
    }
    var index := 0;
    while index < image.numCommands
      invariant index <= image.numCommands
      invariant forall j :: 0 <= j < index ==> !IsUnixThread(image.commands[j])
      invariant address == 0
    {
      var command := image.commands[index];
      if IsUnixThread(command) {
        address := ThreadEntry(command, wide);
        return;
      }
      index := index + 1;
    }
  }
}
