/** Vocabulary shared by the AptioMemoryFix and AptioInputFix models: UEFI status
    codes, memory descriptors and memory types (section 7.2 of the UEFI
    Specification), and the fixed-width integer helpers the C code relies on. */
module Types {

  /** The conventional Some/None datatype, used where the C code passes a pointer
      that may be NULL. */
  datatype Option<T> = None | Some(value: T)

  /** EFI_STATUS values the model distinguishes. `OtherError` stands for any
      further error code a firmware service may return. */
  datatype Status =
    | Success
    | LoadError
    | InvalidParameter
    | Unsupported
    | BufferTooSmall
    | NotReady
    | DeviceError
    | OutOfResources
    | NotFound
    | AlreadyStarted
    | OtherError(code: nat)

  /** EFI_ERROR: every modelled status other than EFI_SUCCESS is an error. */
  predicate IsError(s: Status) {
    !s.Success?
  }

  /** EFI_PAGE_SIZE. */
  const PageSize: nat := 0x1000

  /** 2^32 and 2^64, for the explicit truncations of UINT32 and UINT64 values. */
  const TwoTo32: nat := 0x1_0000_0000
  const TwoTo64: nat := 0x1_0000_0000_0000_0000

  /** EFI_MEMORY_TYPE values (section 7.2 of the UEFI Specification). */
  const ReservedMemoryType: nat := 0
  const LoaderCode: nat := 1
  const LoaderData: nat := 2
  const BootServicesCode: nat := 3
  const BootServicesData: nat := 4
  const RuntimeServicesCode: nat := 5
  const RuntimeServicesData: nat := 6
  const ConventionalMemory: nat := 7
  const UnusableMemory: nat := 8
  const AcpiReclaimMemory: nat := 9
  const AcpiMemoryNvs: nat := 10
  const MemoryMappedIo: nat := 11
  const MemoryMappedIoPortSpace: nat := 12
  const PalCode: nat := 13

  /** EFI_MEMORY_RUNTIME, bit 63 of a descriptor's attribute mask. */
  const MemoryRuntime: bv64 := 0x8000_0000_0000_0000

  /** One EFI_MEMORY_DESCRIPTOR. Addresses and page counts are unbounded naturals;
      a map produced by firmware keeps every range below 2^64. */
  datatype Descriptor = Descriptor(
    memType: nat,
    physicalStart: nat,
    virtualStart: nat,
    pages: nat,
    attribute: bv64)

  /** EFI_PAGES_TO_SIZE. */
  function PagesToSize(pages: nat): nat {
    pages * PageSize
  }

  /** First address past the range a descriptor covers. */
  function EndOf(d: Descriptor): nat {
    d.physicalStart + PagesToSize(d.pages)
  }

  predicate IsRuntime(d: Descriptor) {
    d.attribute & MemoryRuntime != 0
  }

  /** Sum of NumberOfPages over a map. */
  function TotalPages(m: seq<Descriptor>): nat {
    if |m| == 0 then 0 else TotalPages(m[..|m| - 1]) + m[|m| - 1].pages
  }

  /** Every range of the map lies below 2^64, as in any map firmware returns. */
  predicate MapFitsAddressSpace(m: seq<Descriptor>) {
    forall i :: 0 <= i < |m| ==> EndOf(m[i]) <= TwoTo64
  }

  lemma TotalPagesAppend(m: seq<Descriptor>, d: Descriptor)
    ensures TotalPages(m + [d]) == TotalPages(m) + d.pages
  {
    assert (m + [d])[..|m + [d]| - 1] == m;
  }

  /** Multiplication by a natural number keeps order. */
  lemma MulMonotone(a: nat, b: nat, c: nat)
    requires a <= b
    ensures a * c <= b * c
  {
  }

  /** k * d <= n < (k + 1) * d pins n / d to k. */
  lemma DivisionPinned(k: nat, d: nat, n: nat)
    requires d > 0 && k * d <= n < (k + 1) * d
    ensures n / d == k
  {
    var q := n / d;
    var rem := n % d;
    assert n == q * d + rem && 0 <= rem < d;
    if q < k {
      MulMonotone(q + 1, k, d);
    } else if q > k {
      MulMonotone(k + 1, q, d);
    }
  }
}
