/** Memory-map shaping: the merge pass run on every map handed to boot.efi, the
    top-down page placement used to keep allocations clear of the kernel, and the
    retrying map fetch both rely on. */
module MemoryMap {
  import opened Types
  import opened CustomSlide

  // ---------------------------------------------------------------------------
  // ShrinkMemMap

  /** Types that may be folded into free memory: boot-services and loader code and
      data, and free memory itself. */
  predicate IsJoinableType(t: nat) {
    t == BootServicesCode || t == BootServicesData || t == ConventionalMemory
    || t == LoaderCode || t == LoaderData
  }

  /** The join test of ShrinkMemMap: same attributes, `prev` ends exactly where `d`
      starts, and both types are joinable. */
  predicate CanBeJoined(prev: Descriptor, d: Descriptor) {
    d.attribute == prev.attribute && EndOf(prev) == d.physicalStart
    && IsJoinableType(d.memType) && IsJoinableType(prev.memType)
  }

  /** `prev` after absorbing `d`. */
  function Join(prev: Descriptor, d: Descriptor): (j: Descriptor)
    ensures j.physicalStart == prev.physicalStart && j.virtualStart == prev.virtualStart
    ensures j.attribute == prev.attribute && j.memType == ConventionalMemory
    ensures j.pages == prev.pages + d.pages
  {
    prev.(memType := ConventionalMemory, pages := prev.pages + d.pages)
  }

  /** One iteration of the merge loop: `d` joins the last kept entry or is kept. */
  function ShrinkStep(acc: seq<Descriptor>, d: Descriptor): (r: seq<Descriptor>)
    requires |acc| > 0
  {
    if CanBeJoined(acc[|acc| - 1], d) then acc[..|acc| - 1] + [Join(acc[|acc| - 1], d)]
    else acc + [d]
  }

  /** The map after ShrinkMemMap. The C code needs at least one descriptor: with an
      empty map the remaining-size counter starts below zero. */
  function Shrink(m: seq<Descriptor>): (r: seq<Descriptor>)
    requires |m| > 0
    ensures 1 <= |r| <= |m|
    ensures r[0].physicalStart == m[0].physicalStart
  {
    if |m| == 1 then m else ShrinkStep(Shrink(m[..|m| - 1]), m[|m| - 1])
  }

  /** ShrinkMemMap on a buffer of descriptors of size `descriptorSize`: the map is
      compacted in place and the new byte size is returned. */
  method ShrinkMemMap(m: seq<Descriptor>, descriptorSize: nat) returns (r: seq<Descriptor>, mapSize: nat)
    requires |m| > 0
    ensures r == Shrink(m)
    ensures mapSize == |r| * descriptorSize
    ensures mapSize <= |m| * descriptorSize
  {
    r := [m[0]];
    var i: nat := 1;
    assert m[..1] == [m[0]];
    while i < |m|
      invariant 1 <= i <= |m|
      invariant r == Shrink(m[..i])
    {
      ShrinkPrefixStep(m, i);
      var prev := r[|r| - 1];
      if CanBeJoined(prev, m[i]) {
        r := r[..|r| - 1] + [Join(prev, m[i])];
      } else {
        r := r + [m[i]];
      }
      i := i + 1;
    }
    assert m[..i] == m;
    MulMonotone(0, |r|, descriptorSize);
    MulMonotone(|r|, |m|, descriptorSize);
    mapSize := |r| * descriptorSize;
  }

  /** Shrinking one more descriptor of the input is one more merge step. */
  lemma ShrinkPrefixStep(m: seq<Descriptor>, i: nat)
    requires 0 < i < |m|
    ensures Shrink(m[..i + 1]) == ShrinkStep(Shrink(m[..i]), m[i])
  {
    assert m[..i + 1][..i] == m[..i];
  }

  /** The last entry of the shrunk map stands in for the last descriptor of the input
      in every join test: same attributes, same end, and a joinable type exactly
      when that descriptor's type is. */
  lemma {:induction false} ShrinkLastAgrees(m: seq<Descriptor>)
    requires |m| > 0
    ensures var l := Shrink(m)[|Shrink(m)| - 1];
      && l.attribute == m[|m| - 1].attribute
      && EndOf(l) == EndOf(m[|m| - 1])
      && IsJoinableType(l.memType) == IsJoinableType(m[|m| - 1].memType)
  {
    if |m| > 1 {
      var p := m[..|m| - 1];
      ShrinkLastAgrees(p);
      var s := Shrink(p);
      var d := m[|m| - 1];
      assert p[|p| - 1] == m[|m| - 2];
      if CanBeJoined(s[|s| - 1], d) {
        assert Shrink(m)[|Shrink(m)| - 1] == Join(s[|s| - 1], d);
      } else {
        assert Shrink(m)[|Shrink(m)| - 1] == d;
      }
    }
  }

  /** Whether the merge joins `d` depends only on the input's previous descriptor. */
  lemma JoinDecidedByInput(m: seq<Descriptor>, d: Descriptor)
    requires |m| > 0
    ensures CanBeJoined(Shrink(m)[|Shrink(m)| - 1], d) == CanBeJoined(m[|m| - 1], d)
  {
    ShrinkLastAgrees(m);
  }

  /** Joining only moves pages between entries: the total is unchanged. */
  lemma {:induction false} ShrinkPreservesPages(m: seq<Descriptor>)
    requires |m| > 0
    ensures TotalPages(Shrink(m)) == TotalPages(m)
  {
    if |m| > 1 {
      var p := m[..|m| - 1];
      var d := m[|m| - 1];
      ShrinkPreservesPages(p);
      assert m == p + [d];
      TotalPagesAppend(p, d);
      StepAddsPages(Shrink(p), d);
    }
  }

  /** One merge step adds the pages of the descriptor it takes in. */
  lemma StepAddsPages(s: seq<Descriptor>, d: Descriptor)
    requires |s| > 0
    ensures TotalPages(ShrinkStep(s, d)) == TotalPages(s) + d.pages
  {
    if CanBeJoined(s[|s| - 1], d) {
      var init := s[..|s| - 1];
      assert TotalPages(s) == TotalPages(init) + s[|s| - 1].pages;
      TotalPagesAppend(init, Join(s[|s| - 1], d));
    } else {
      TotalPagesAppend(s, d);
    }
  }

  /** No two neighbours in the map can be joined. */
  predicate NoJoinablePair(m: seq<Descriptor>) {
    forall j :: 0 < j < |m| ==> !CanBeJoined(m[j - 1], m[j])
  }

  /** After the pass every neighbouring pair was rejected on contiguity, attributes
      or type. */
  lemma {:induction false} ShrinkLeavesNoJoinablePair(m: seq<Descriptor>)
    requires |m| > 0
    ensures NoJoinablePair(Shrink(m))
  {
    if |m| > 1 {
      var p := m[..|m| - 1];
      var d := m[|m| - 1];
      ShrinkLeavesNoJoinablePair(p);
      var s := Shrink(p);
      var last := s[|s| - 1];
      if CanBeJoined(last, d) {
        var r := Shrink(m);
        var j := Join(last, d);
        assert r == s[..|s| - 1] + [j];
        if |s| > 1 {
          assert !CanBeJoined(s[|s| - 2], last);
          assert CanBeJoined(s[|s| - 2], j) == CanBeJoined(s[|s| - 2], last);
        }
        forall k | 0 < k < |r|
          ensures !CanBeJoined(r[k - 1], r[k])
        {
          if k < |r| - 1 {
            assert r[k - 1] == s[k - 1] && r[k] == s[k];
          }
        }
      }
    }
  }

  /** A map with no joinable neighbours passes through unchanged. */
  lemma {:induction false} ShrinkFixesJoinFreeMap(m: seq<Descriptor>)
    requires |m| > 0
    requires NoJoinablePair(m)
    ensures Shrink(m) == m
  {
    if |m| > 1 {
      var p := m[..|m| - 1];
      assert NoJoinablePair(p) by {
        forall j | 0 < j < |p|
          ensures !CanBeJoined(p[j - 1], p[j])
        {
          assert p[j - 1] == m[j - 1] && p[j] == m[j];
        }
      }
      ShrinkFixesJoinFreeMap(p);
      JoinDecidedByInput(p, m[|m| - 1]);
      assert !CanBeJoined(m[|m| - 2], m[|m| - 1]);
      assert p + [m[|m| - 1]] == m;
    }
  }

  /** Running the merge pass on its own output changes nothing. */
  lemma ShrinkIdempotent(m: seq<Descriptor>)
    requires |m| > 0
    ensures Shrink(Shrink(m)) == Shrink(m)
  {
    ShrinkLeavesNoJoinablePair(m);
    ShrinkFixesJoinFreeMap(Shrink(m));
  }

  /** Indices where a new output entry begins: the first descriptor and every
      descriptor the pass cannot join to its input predecessor, in order. */
  function RunStarts(m: seq<Descriptor>): (r: seq<nat>)
    ensures |r| <= |m|
    ensures forall j :: 0 <= j < |r| ==> r[j] < |m|
  {
    if |m| == 0 then []
    else
      var startsRun := |m| == 1 || !CanBeJoined(m[|m| - 2], m[|m| - 1]);
      RunStarts(m[..|m| - 1]) + (if startsRun then [|m| - 1] else [])
  }

  /** Where run `j` ends: the next run start, or the end of the map. */
  function RunEnd(m: seq<Descriptor>, j: nat): nat
    requires j < |RunStarts(m)|
  {
    if j + 1 < |RunStarts(m)| then RunStarts(m)[j + 1] else |m|
  }

  /** The entry a run [a, b) becomes: a lone descriptor is kept as it is; a longer
      run is free memory with the first descriptor's start, virtual start and
      attributes and the run's total page count. */
  function RunMerge(m: seq<Descriptor>, a: nat, b: nat): Descriptor
    requires a < b <= |m|
  {
    if b == a + 1 then m[a] else m[a].(memType := ConventionalMemory, pages := TotalPages(m[a..b]))
  }

  lemma {:induction false} RunStartsShape(m: seq<Descriptor>)
    requires |m| > 0
    ensures |RunStarts(m)| > 0 && RunStarts(m)[0] == 0
    ensures forall j, k :: 0 <= j < k < |RunStarts(m)| ==> RunStarts(m)[j] < RunStarts(m)[k]
  {
    if |m| > 1 {
      RunStartsShape(m[..|m| - 1]);
    }
  }

  /** Entry `j` of the shrunk map is the merge of run `j`. */
  predicate EntryMergesRun(m: seq<Descriptor>, j: nat)
    requires |m| > 0 && j < |RunStarts(m)| && |Shrink(m)| == |RunStarts(m)|
  {
    RunStarts(m)[j] < RunEnd(m, j) <= |m| && Shrink(m)[j] == RunMerge(m, RunStarts(m)[j], RunEnd(m, j))
  }

  /** One output entry per run, each the merge of its run. */
  predicate MergesRuns(m: seq<Descriptor>)
    requires |m| > 0
  {
    |Shrink(m)| == |RunStarts(m)| && forall j :: 0 <= j < |RunStarts(m)| ==> EntryMergesRun(m, j)
  }

  /** Merges of runs inside a prefix do not look past it. */
  lemma RunMergePrefix(m: seq<Descriptor>, n: nat, a: nat, b: nat)
    requires a < b <= n <= |m|
    ensures RunMerge(m, a, b) == RunMerge(m[..n], a, b)
  {
    assert m[a..b] == m[..n][a..b];
  }

  /** The step where the last descriptor starts a run of its own. */
  lemma ShrinkMergesRunsKeep(m: seq<Descriptor>)
    requires |m| > 1 && MergesRuns(m[..|m| - 1])
    requires !CanBeJoined(m[|m| - 2], m[|m| - 1])
    ensures MergesRuns(m)
  {
    var n := |m| - 1;
    var p := m[..n];
    var d := m[n];
    JoinDecidedByInput(p, d);
    assert p[n - 1] == m[n - 1];
    var rs := RunStarts(p);
    assert RunStarts(m) == rs + [n];
    assert Shrink(m) == Shrink(p) + [d];
    forall j | 0 <= j < |RunStarts(m)|
      ensures EntryMergesRun(m, j)
    {
      if j < |rs| {
        assert EntryMergesRun(p, j);
        assert RunEnd(m, j) == RunEnd(p, j);
        RunMergePrefix(m, n, rs[j], RunEnd(p, j));
      }
    }
  }

  /** When the last descriptor joins, the run starts stay those of the prefix and
      the output's last entry absorbs the descriptor. */
  lemma JoinStepShape(m: seq<Descriptor>)
    requires |m| > 1
    requires CanBeJoined(m[|m| - 2], m[|m| - 1])
    ensures RunStarts(m) == RunStarts(m[..|m| - 1])
    ensures var s := Shrink(m[..|m| - 1]);
      |s| > 0 && Shrink(m) == s[..|s| - 1] + [Join(s[|s| - 1], m[|m| - 1])]
    ensures var s := Shrink(m[..|m| - 1]);
      |Shrink(m)| == |s| && Shrink(m)[|s| - 1] == Join(s[|s| - 1], m[|m| - 1])
  {
    var n := |m| - 1;
    var p := m[..n];
    JoinDecidedByInput(p, m[n]);
    assert p[n - 1] == m[n - 1];
  }

  /** The step where the last descriptor extends the last run. */
  lemma ShrinkMergesRunsJoin(m: seq<Descriptor>)
    requires |m| > 1 && MergesRuns(m[..|m| - 1])
    requires CanBeJoined(m[|m| - 2], m[|m| - 1])
    ensures MergesRuns(m)
  {
    JoinStepShape(m);
    RunStartsShape(m[..|m| - 1]);
    JoinKeepsEarlierRuns(m);
    JoinExtendsLastRun(m);
  }

  /** Runs before the last are merged as they were in the prefix. */
  lemma JoinKeepsEarlierRuns(m: seq<Descriptor>)
    requires |m| > 1 && MergesRuns(m[..|m| - 1])
    requires CanBeJoined(m[|m| - 2], m[|m| - 1])
    ensures |Shrink(m)| == |RunStarts(m)|
    ensures forall j :: 0 <= j < |RunStarts(m)| - 1 ==> EntryMergesRun(m, j)
  {
    var n := |m| - 1;
    var p := m[..n];
    JoinStepShape(m);
    var rs := RunStarts(p);
    forall j | 0 <= j < |rs| - 1
      ensures EntryMergesRun(m, j)
    {
      assert EntryMergesRun(p, j);
      assert RunEnd(m, j) == RunEnd(p, j);
      RunMergePrefix(m, n, rs[j], RunEnd(p, j));
    }
  }

  /** The last run takes in the joined descriptor. */
  lemma JoinExtendsLastRun(m: seq<Descriptor>)
    requires |m| > 1 && MergesRuns(m[..|m| - 1])
    requires CanBeJoined(m[|m| - 2], m[|m| - 1])
    ensures |Shrink(m)| == |RunStarts(m)| > 0
    ensures EntryMergesRun(m, |RunStarts(m)| - 1)
  {
    LastRunMerge(m[..|m| - 1]);
    JoinAbsorbsLastRun(m);
  }

  /** The last output entry of a map whose runs are merged is the merge of its
      last run. */
  lemma LastRunMerge(p: seq<Descriptor>)
    requires |p| > 0 && MergesRuns(p)
    ensures var rs := RunStarts(p);
      && |Shrink(p)| == |rs| > 0
      && rs[|rs| - 1] < |p|
      && Shrink(p)[|rs| - 1] == RunMerge(p, rs[|rs| - 1], |p|)
  {
    RunStartsShape(p);
    var k := |RunStarts(p)| - 1;
    assert EntryMergesRun(p, k);
  }

  /** The joined descriptor extends a last run that was merged. */
  lemma JoinAbsorbsLastRun(m: seq<Descriptor>)
    requires |m| > 1 && CanBeJoined(m[|m| - 2], m[|m| - 1])
    requires var p := m[..|m| - 1]; var rs := RunStarts(p);
      && |Shrink(p)| == |rs| > 0
      && rs[|rs| - 1] < |p|
      && Shrink(p)[|rs| - 1] == RunMerge(p, rs[|rs| - 1], |p|)
    ensures |Shrink(m)| == |RunStarts(m)| > 0
    ensures EntryMergesRun(m, |RunStarts(m)| - 1)
  {
    var n := |m| - 1;
    var p := m[..n];
    var d := m[n];
    var rs := RunStarts(p);
    var s := Shrink(p);
    var k := |rs| - 1;
    var a := rs[k];
    JoinStepShape(m);
    RunMergeAbsorbsLast(m, a);
  }

  /** RunMergeAbsorbs for the last descriptor of a map. */
  lemma RunMergeAbsorbsLast(m: seq<Descriptor>, a: nat)
    requires a < |m| - 1
    ensures Join(RunMerge(m[..|m| - 1], a, |m| - 1), m[|m| - 1]) == RunMerge(m, a, |m|)
  {
    var n := |m| - 1;
    assert m == m[..n] + [m[n]];
    RunMergeAbsorbs(m[..n], m[n], a);
  }

  /** Joining a descriptor onto the merge of the last run is the merge of the run
      extended by that descriptor. */
  lemma RunMergeAbsorbs(p: seq<Descriptor>, d: Descriptor, a: nat)
    requires a < |p|
    ensures Join(RunMerge(p, a, |p|), d) == RunMerge(p + [d], a, |p| + 1)
  {
    var n := |p|;
    assert (p + [d])[a..n + 1] == p[a..n] + [d];
    TotalPagesAppend(p[a..n], d);
    if a + 1 == n {
      assert p[a..n] == [p[a]];
      assert TotalPages([p[a]]) == p[a].pages by {
        assert [p[a]][..0] == [];
      }
    }
  }

  /** The shrunk map is exactly one merged entry per run, in input order: lone
      descriptors come through unchanged and in their original order, and each run
      of joinable neighbours becomes one free-memory entry holding the run's pages. */
  lemma {:induction false} ShrinkMergesRuns(m: seq<Descriptor>)
    requires |m| > 0
    ensures MergesRuns(m)
  {
    if |m| == 1 {
      assert RunStarts(m) == [0];
      assert m[0..1] == m;
    } else {
      ShrinkMergesRuns(m[..|m| - 1]);
      if CanBeJoined(m[|m| - 2], m[|m| - 1]) {
        ShrinkMergesRunsJoin(m);
      } else {
        ShrinkMergesRunsKeep(m);
      }
    }
  }

  // ---------------------------------------------------------------------------
  // AllocatePagesFromTop

  /** `d` is free memory holding `pages` pages that start low enough to end at or
      below `ceiling`. */
  predicate Fits(d: Descriptor, pages: nat, ceiling: nat) {
    d.memType == ConventionalMemory && pages <= d.pages && d.physicalStart + PagesToSize(pages) <= ceiling
  }

  /** Where the pages go inside a fitting descriptor: at its top when it lies wholly
      below the ceiling, otherwise right under the ceiling. */
  function PlaceBelow(d: Descriptor, pages: nat, ceiling: nat): (a: nat)
    requires Fits(d, pages, ceiling)
    ensures d.physicalStart <= a && a + PagesToSize(pages) <= EndOf(d) && a + PagesToSize(pages) <= ceiling
  {
    if EndOf(d) <= ceiling then d.physicalStart + PagesToSize(d.pages - pages)
    else ceiling - PagesToSize(pages)
  }

  /** The outcome of AllocatePagesFromTop: its status, the final *Memory, and the
      address AllocatePages was called with, if it was called at all. */
  datatype TopAllocation = TopAllocation(status: Status, memory: nat, allocatedAt: Option<nat>)

  /** The backward scan over descriptors m[k-1], ..., m[0]. Every fitting descriptor
      lowers *Memory, even one then skipped for overlapping the kernel area. */
  function ScanFromTop(m: seq<Descriptor>, k: nat, pages: nat, memory: nat, checkRange: bool,
                       sandyOrIvy: bool, allocate: nat -> Status): (r: TopAllocation)
    requires k <= |m| && memory < TwoTo64
    ensures r.memory <= memory
    ensures r.allocatedAt.None? ==> r.status == NotFound
    ensures r.allocatedAt.Some? ==>
      && r.memory == r.allocatedAt.value
      && r.status == allocate(r.allocatedAt.value)
      && (exists i ::
            && 0 <= i < k
            && Fits(m[i], pages, memory)
            && m[i].physicalStart <= r.memory
            && r.memory + PagesToSize(pages) <= EndOf(m[i]))
      && r.memory + PagesToSize(pages) <= memory
      && (checkRange ==> !OverlapsWithSlide(r.memory, PagesToSize(pages) % TwoTo64, sandyOrIvy))
    decreases k
  {
    if k == 0 then TopAllocation(NotFound, memory, None)
    else
      var d := m[k - 1];
      if Fits(d, pages, memory) then
        var address := PlaceBelow(d, pages, memory);
        if checkRange && OverlapsWithSlide(address, PagesToSize(pages) % TwoTo64, sandyOrIvy) then
          ScanFromTop(m, k - 1, pages, address, checkRange, sandyOrIvy, allocate)
        else
          assert Fits(m[k - 1], pages, memory);
          TopAllocation(allocate(address), address, Some(address))
      else
        var r := ScanFromTop(m, k - 1, pages, memory, checkRange, sandyOrIvy, allocate);
        r
  }

  /** The reference choice: the last descriptor among m[0..k) that fits. */
  function LastFit(m: seq<Descriptor>, k: nat, pages: nat, ceiling: nat): (r: Option<nat>)
    requires k <= |m|
    ensures r.Some? ==>
      && r.value < k
      && Fits(m[r.value], pages, ceiling)
      && (forall j :: r.value < j < k ==> !Fits(m[j], pages, ceiling))
    ensures r.None? ==> forall j :: 0 <= j < k ==> !Fits(m[j], pages, ceiling)
  {
    if k == 0 then None
    else if Fits(m[k - 1], pages, ceiling) then Some(k - 1)
    else LastFit(m, k - 1, pages, ceiling)
  }

  /** Without the kernel-area check the scan allocates in the last fitting
      descriptor in map order, placed as PlaceBelow says, and calls AllocatePages
      only when some descriptor fits. */
  lemma {:induction false} ScanPicksLastFit(m: seq<Descriptor>, k: nat, pages: nat, memory: nat,
                                            sandyOrIvy: bool, allocate: nat -> Status)
    requires k <= |m| && memory < TwoTo64
    ensures var r := ScanFromTop(m, k, pages, memory, false, sandyOrIvy, allocate);
      match LastFit(m, k, pages, memory)
      case None => r == TopAllocation(NotFound, memory, None)
      case Some(i) =>
        && r.allocatedAt == Some(PlaceBelow(m[i], pages, memory))
        && r.status == allocate(PlaceBelow(m[i], pages, memory))
    decreases k
  {
    if k > 0 && !Fits(m[k - 1], pages, memory) {
      ScanPicksLastFit(m, k - 1, pages, memory, sandyOrIvy, allocate);
    }
  }

  /** A choice made with the kernel-area check: the descriptor chosen, if any, and
      the ceiling in force when it was chosen (or when the map ran out). */
  datatype ClearChoice = ClearChoice(index: Option<nat>, ceiling: nat)

  /** The reference choice with the kernel-area check: take the last fitting
      descriptor below the ceiling; when its placement overlaps the kernel area,
      lower the ceiling to that placement and look again among the descriptors
      before it. */
  function ClearFitBelow(m: seq<Descriptor>, k: nat, pages: nat, ceiling: nat, sandyOrIvy: bool): (r: ClearChoice)
    requires k <= |m| && ceiling < TwoTo64
    ensures r.ceiling <= ceiling
    ensures r.index.Some? ==>
      && r.index.value < k
      && Fits(m[r.index.value], pages, r.ceiling)
      && !OverlapsWithSlide(PlaceBelow(m[r.index.value], pages, r.ceiling), PagesToSize(pages) % TwoTo64, sandyOrIvy)
    decreases k
  {
    match LastFit(m, k, pages, ceiling)
    case None => ClearChoice(None, ceiling)
    case Some(i) =>
      var a := PlaceBelow(m[i], pages, ceiling);
      if OverlapsWithSlide(a, PagesToSize(pages) % TwoTo64, sandyOrIvy) then
        ClearFitBelow(m, i, pages, a, sandyOrIvy)
      else ClearChoice(Some(i), ceiling)
  }

  /** One step of ClearFitBelow when the top descriptor fits. */
  lemma ClearStepFits(m: seq<Descriptor>, k: nat, pages: nat, ceiling: nat, sandyOrIvy: bool)
    requires 0 < k <= |m| && ceiling < TwoTo64 && Fits(m[k - 1], pages, ceiling)
    ensures var a := PlaceBelow(m[k - 1], pages, ceiling);
      ClearFitBelow(m, k, pages, ceiling, sandyOrIvy)
        == if OverlapsWithSlide(a, PagesToSize(pages) % TwoTo64, sandyOrIvy) then ClearFitBelow(m, k - 1, pages, a, sandyOrIvy)
           else ClearChoice(Some(k - 1), ceiling)
  {
    assert LastFit(m, k, pages, ceiling) == Some(k - 1);
  }

  /** One step of ClearFitBelow when the top descriptor does not fit. */
  lemma ClearStepMisses(m: seq<Descriptor>, k: nat, pages: nat, ceiling: nat, sandyOrIvy: bool)
    requires 0 < k <= |m| && ceiling < TwoTo64 && !Fits(m[k - 1], pages, ceiling)
    ensures ClearFitBelow(m, k, pages, ceiling, sandyOrIvy) == ClearFitBelow(m, k - 1, pages, ceiling, sandyOrIvy)
  {
    assert LastFit(m, k, pages, ceiling) == LastFit(m, k - 1, pages, ceiling);
  }

  /** With the kernel-area check the scan allocates where the reference choice
      says: at the placement of the chosen descriptor under the lowered ceiling,
      or nowhere, leaving *Memory at the last lowered ceiling. */
  lemma {:induction false} ScanSkipsSlideOverlaps(m: seq<Descriptor>, k: nat, pages: nat, memory: nat,
                                                  sandyOrIvy: bool, allocate: nat -> Status)
    requires k <= |m| && memory < TwoTo64
    ensures var r := ScanFromTop(m, k, pages, memory, true, sandyOrIvy, allocate);
      var c := ClearFitBelow(m, k, pages, memory, sandyOrIvy);
      match c.index
      case None => r == TopAllocation(NotFound, c.ceiling, None)
      case Some(i) =>
        && r.allocatedAt == Some(PlaceBelow(m[i], pages, c.ceiling))
        && r.memory == PlaceBelow(m[i], pages, c.ceiling)
        && r.status == allocate(PlaceBelow(m[i], pages, c.ceiling))
    decreases k
  {
    if k > 0 {
      if Fits(m[k - 1], pages, memory) {
        var a := PlaceBelow(m[k - 1], pages, memory);
        ClearStepFits(m, k, pages, memory, sandyOrIvy);
        if OverlapsWithSlide(a, PagesToSize(pages) % TwoTo64, sandyOrIvy) {
          assert ScanFromTop(m, k, pages, memory, true, sandyOrIvy, allocate)
              == ScanFromTop(m, k - 1, pages, a, true, sandyOrIvy, allocate);
          ScanSkipsSlideOverlaps(m, k - 1, pages, a, sandyOrIvy, allocate);
        }
      } else {
        ClearStepMisses(m, k, pages, memory, sandyOrIvy);
        assert ScanFromTop(m, k, pages, memory, true, sandyOrIvy, allocate)
            == ScanFromTop(m, k - 1, pages, memory, true, sandyOrIvy, allocate);
        ScanSkipsSlideOverlaps(m, k - 1, pages, memory, sandyOrIvy, allocate);
      }
    }
  }

  /** AllocatePagesFromTop. `fetch` is the pool-backed map fetch it starts with: a
      failure is returned as it is, and AllocatePages is then never called. */
  function AllocatePagesFromTop(fetch: MapAllocResult, pages: nat, memory: nat, checkRange: bool,
                                sandyOrIvy: bool, allocate: nat -> Status): (r: TopAllocation)
    requires memory < TwoTo64
    requires fetch.status == Success ==> fetch.memoryMap.Some?
    ensures IsError(fetch.status) ==> r == TopAllocation(fetch.status, memory, None)
    ensures fetch.status == Success ==>
      r == ScanFromTop(fetch.memoryMap.value, |fetch.memoryMap.value|, pages, memory, checkRange, sandyOrIvy, allocate)
  {
    if IsError(fetch.status) then TopAllocation(fetch.status, memory, None)
    else ScanFromTop(fetch.memoryMap.value, |fetch.memoryMap.value|, pages, memory, checkRange, sandyOrIvy, allocate)
  }

  // ---------------------------------------------------------------------------
  // GetMemoryMapAlloc

  /** One round of the retry loop: the status of the buffer allocation (from the
      top of memory, or whether the pool allocation succeeded), then what
      GetMemoryMap answered into that buffer. */
  datatype RetryRound = RetryRound(topStatus: Status, poolOk: bool, fetchStatus: Status, descriptors: seq<Descriptor>)

  /** The result of GetMemoryMapAlloc: its status and *MemoryMap (`None` is NULL). */
  datatype MapAllocResult = MapAllocResult(status: Status, memoryMap: Option<seq<Descriptor>>)

  predicate AllocationFails(round: RetryRound, fromTop: bool) {
    if fromTop then IsError(round.topStatus) else !round.poolOk
  }

  /** The round ends the loop: the buffer could not be allocated, or GetMemoryMap
      said anything but EFI_BUFFER_TOO_SMALL. */
  predicate RoundEnds(round: RetryRound, fromTop: bool) {
    AllocationFails(round, fromTop) || round.fetchStatus != BufferTooSmall
  }

  /** Some round ends the loop: the rounds after it are never reached. */
  predicate RetryEnds(rounds: seq<RetryRound>, fromTop: bool) {
    exists i :: 0 <= i < |rounds| && RoundEnds(rounds[i], fromTop)
  }

  /** The first round that ends the loop. */
  function FirstEnding(rounds: seq<RetryRound>, fromTop: bool): (i: nat)
    requires RetryEnds(rounds, fromTop)
    ensures i < |rounds| && RoundEnds(rounds[i], fromTop)
    ensures forall j :: 0 <= j < i ==> !RoundEnds(rounds[j], fromTop)
  {
    if RoundEnds(rounds[0], fromTop) then 0
    else
      var w :| 0 <= w < |rounds| && RoundEnds(rounds[w], fromTop);
      assert RoundEnds(rounds[1..][w - 1], fromTop);
      1 + FirstEnding(rounds[1..], fromTop)
  }

  /** What the loop returns when `round` ends it: the allocation failure, the fetch
      error, or the map. */
  function RoundOutcome(round: RetryRound, fromTop: bool): (r: MapAllocResult)
    requires RoundEnds(round, fromTop)
    ensures r.memoryMap.Some? <==> r.status == Success
    ensures r.status == (if AllocationFails(round, fromTop) then (if fromTop then round.topStatus else OutOfResources)
                         else round.fetchStatus)
    ensures r.status == Success ==> r.memoryMap == Some(round.descriptors)
  {
    if AllocationFails(round, fromTop) then
      MapAllocResult(if fromTop then round.topStatus else OutOfResources, None)
    else if IsError(round.fetchStatus) then MapAllocResult(round.fetchStatus, None)
    else MapAllocResult(Success, Some(round.descriptors))
  }

  /** The do-while loop, from the first round on: rounds are repeated while the
      buffer is allocated and GetMemoryMap asks for a bigger one. */
  function Retry(rounds: seq<RetryRound>, fromTop: bool): (r: MapAllocResult)
    requires RetryEnds(rounds, fromTop)
    ensures r.memoryMap.Some? <==> r.status == Success
    ensures r == RoundOutcome(rounds[FirstEnding(rounds, fromTop)], fromTop)
  {
    var round := rounds[0];
    if AllocationFails(round, fromTop) then
      MapAllocResult(if fromTop then round.topStatus else OutOfResources, None)
    else if round.fetchStatus == BufferTooSmall then
      var w :| 0 <= w < |rounds| && RoundEnds(rounds[w], fromTop);
      assert RoundEnds(rounds[1..][w - 1], fromTop);
      Retry(rounds[1..], fromTop)
    else if IsError(round.fetchStatus) then MapAllocResult(round.fetchStatus, None)
    else MapAllocResult(Success, Some(round.descriptors))
  }

  /** GetMemoryMapAlloc: a first size query with no buffer, whose status is returned
      unchanged unless it asks for a bigger buffer; then allocate-and-fetch rounds
      until the fetch stops asking for more. A failed round frees its buffer and
      leaves *MemoryMap NULL. */
  function GetMemoryMapAlloc(fromTop: bool, probe: Status, rounds: seq<RetryRound>): (r: MapAllocResult)
    requires probe == BufferTooSmall ==> RetryEnds(rounds, fromTop)
    ensures probe != BufferTooSmall ==> r == MapAllocResult(probe, None)
    ensures probe == BufferTooSmall ==> r == Retry(rounds, fromTop)
    ensures probe == BufferTooSmall ==> (r.memoryMap.Some? <==> r.status == Success)
  {
    if probe != BufferTooSmall then MapAllocResult(probe, None)
    else Retry(rounds, fromTop)
  }

  // ---------------------------------------------------------------------------
  // FixMemMap

  /** Build options FixMemMap honours: the iGPU reserved-memory retype and the
      legacy-region retype. */
  datatype FixOptions = FixOptions(protectIgpuReserved: bool, unmarkedOverlapFix: bool)

  /** The options the package ships with: the iGPU retype on, the legacy-region
      retype not configured. */
  const DefaultFixOptions := FixOptions(true, false)

  /** A runtime-flagged reserved range, which boot.efi would leave unmapped. */
  predicate IsRuntimeReserved(d: Descriptor) {
    IsRuntime(d) && d.memType == ReservedMemoryType
  }

  /** Free or boot-services memory that reaches into the 0x9E000..0xA0000 area. */
  predicate IsUnmarkedLegacy(d: Descriptor) {
    && d.physicalStart < 0xA0000 && EndOf(d) >= 0x9E000
    && (d.memType == ConventionalMemory || d.memType == BootServicesData || d.memType == BootServicesCode)
  }

  /** The per-descriptor fix: the iGPU retype first, then the legacy retype. */
  function FixDescriptor(d: Descriptor, options: FixOptions): Descriptor {
    var d1 := if options.protectIgpuReserved && IsRuntimeReserved(d) then d.(memType := MemoryMappedIo) else d;
    if options.unmarkedOverlapFix && IsUnmarkedLegacy(d1) then d1.(memType := AcpiMemoryNvs, attribute := 0) else d1
  }

  /** FixMemMap: a runtime reserved range becomes MMIO when the iGPU option is on;
      a free or boot-services range over the legacy area becomes ACPI NVS with no
      attributes when the legacy option is on; nothing else changes, since the rest
      of the pass only reports. */
  function FixMemMap(m: seq<Descriptor>, options: FixOptions): (r: seq<Descriptor>)
    ensures |r| == |m|
    ensures forall i :: 0 <= i < |m| ==>
      && r[i].physicalStart == m[i].physicalStart
      && r[i].virtualStart == m[i].virtualStart
      && r[i].pages == m[i].pages
    ensures forall i :: 0 <= i < |m| ==>
      (options.protectIgpuReserved && IsRuntimeReserved(m[i]) ==> r[i].memType == MemoryMappedIo && r[i].attribute == m[i].attribute)
    ensures forall i :: 0 <= i < |m| ==>
      (options.unmarkedOverlapFix && IsUnmarkedLegacy(m[i]) ==> r[i].memType == AcpiMemoryNvs && r[i].attribute == 0)
    ensures forall i :: 0 <= i < |m| ==>
      (!(options.protectIgpuReserved && IsRuntimeReserved(m[i])) && !(options.unmarkedOverlapFix && IsUnmarkedLegacy(m[i]))
       ==> r[i] == m[i])
  {
    seq(|m|, i requires 0 <= i < |m| => FixDescriptor(m[i], options))
  }

  /** A second pass finds nothing left to fix. */
  lemma FixMemMapIdempotent(m: seq<Descriptor>, options: FixOptions)
    ensures FixMemMap(FixMemMap(m, options), options) == FixMemMap(m, options)
  {
    var once := FixMemMap(m, options);
    var twice := FixMemMap(once, options);
    forall i | 0 <= i < |m|
      ensures twice[i] == once[i]
    {
      assert !IsRuntimeReserved(once[i]) || !options.protectIgpuReserved;
      assert !IsUnmarkedLegacy(once[i]) || !options.unmarkedOverlapFix;
    }
  }

  /** With the shipped options the pass is the iGPU retype alone: a runtime reserved
      range becomes MMIO with its attribute kept, and every other descriptor,
      the legacy-area ones included, is left as it was. */
  lemma ShippedFixMemMapRetypesOnlyIgpu(m: seq<Descriptor>)
    ensures var r := FixMemMap(m, DefaultFixOptions);
      forall i :: 0 <= i < |m| ==> r[i] == if IsRuntimeReserved(m[i]) then m[i].(memType := MemoryMappedIo) else m[i]
  {
    var r := FixMemMap(m, DefaultFixOptions);
    forall i | 0 <= i < |m|
      ensures r[i] == if IsRuntimeReserved(m[i]) then m[i].(memType := MemoryMappedIo) else m[i]
    {
      assert r[i] == FixDescriptor(m[i], DefaultFixOptions);
    }
  }

  /** After the pass with the iGPU option on, no runtime range is left reserved. */
  lemma FixMemMapLeavesNoRuntimeReserved(m: seq<Descriptor>, options: FixOptions)
    requires options.protectIgpuReserved
    ensures forall i :: 0 <= i < |m| ==> !IsRuntimeReserved(FixMemMap(m, options)[i])
  {
  }
}
