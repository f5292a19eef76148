/** Runtime-services shims: the table of runtime descriptors hidden from the
    kernel's relocation as MMIO, the undo step, and the route of the original
    GetVariable. */
module RtShims {
  import opened Types

  /** APTIFIX_MAX_RT_RELOC_NUM: capacity of the protection table. */
  const MaxRtRelocNum: nat := 64

  /** RT_RELOC_PROTECT_INFO: where a retyped descriptor starts and its type before. */
  datatype RelocInfo = RelocInfo(physicalStart: nat, memType: nat)

  /** A descriptor is retyped when it is a runtime range of RT code, or of RT data
      other than the one holding the system table. */
  predicate ShouldProtect(d: Descriptor, sysTableArea: nat) {
    IsRuntime(d)
    && (d.memType == RuntimeServicesCode
        || (d.memType == RuntimeServicesData && d.physicalStart != sysTableArea))
  }

  /** Every descriptor that qualifies, as a table entry, in map order. */
  function ProtectedPairs(m: seq<Descriptor>, sysTableArea: nat): (r: seq<RelocInfo>)
    ensures |r| <= |m|
  {
    if |m| == 0 then []
    else
      var d := m[|m| - 1];
      ProtectedPairs(m[..|m| - 1], sysTableArea)
        + (if ShouldProtect(d, sysTableArea) then [RelocInfo(d.physicalStart, d.memType)] else [])
  }

  function Take<T>(s: seq<T>, n: nat): (r: seq<T>)
    ensures |r| == if |s| <= n then |s| else n
  {
    if |s| <= n then s else s[..n]
  }

  /** The map after protection and the table recorded for it. */
  datatype Protection = Protection(memoryMap: seq<Descriptor>, table: seq<RelocInfo>)

  /** ProtectRtMemoryFromRelocation. The table starts empty on every pass; each
      qualifying descriptor becomes MMIO, and its start and old type are recorded
      while the table has room. */
  function ProtectRtMemoryFromRelocation(m: seq<Descriptor>, sysTableArea: nat): (r: Protection)
    ensures |r.memoryMap| == |m|
    ensures forall i :: 0 <= i < |m| ==>
      r.memoryMap[i] == if ShouldProtect(m[i], sysTableArea) then m[i].(memType := MemoryMappedIo) else m[i]
    ensures r.table == Take(ProtectedPairs(m, sysTableArea), MaxRtRelocNum)
    ensures |r.table| <= MaxRtRelocNum
  {
    if |m| == 0 then Protection([], [])
    else
      var p := m[..|m| - 1];
      var d := m[|m| - 1];
      var previous := ProtectRtMemoryFromRelocation(p, sysTableArea);
      assert forall i :: 0 <= i < |p| ==> p[i] == m[i];
      if ShouldProtect(d, sysTableArea) then
        var table := if |previous.table| < MaxRtRelocNum
          then previous.table + [RelocInfo(d.physicalStart, d.memType)] else previous.table;
        assert table == Take(ProtectedPairs(m, sysTableArea), MaxRtRelocNum) by {
          var pp := ProtectedPairs(p, sysTableArea);
          assert ProtectedPairs(m, sysTableArea) == pp + [RelocInfo(d.physicalStart, d.memType)];
          if |pp| > MaxRtRelocNum {
            assert (pp + [RelocInfo(d.physicalStart, d.memType)])[..MaxRtRelocNum] == pp[..MaxRtRelocNum];
          }
        }
        Protection(previous.memoryMap + [d.(memType := MemoryMappedIo)], table)
      else
        Protection(previous.memoryMap + [d], previous.table)
  }

  /** --NumEntriesLeft on a UINTN. */
  function CountDown(left: nat): nat {
    if left == 0 then TwoTo64 - 1 else left - 1
  }

  /** The inner loop of RestoreProtectedRtMemoryTypes for one descriptor: every
      entry with the same start writes its type (the last one wins) and counts
      down the entries left. */
  function InnerPass(table: seq<RelocInfo>, d: Descriptor, left: nat): (r: (nat, nat))
  {
    if |table| == 0 then (d.memType, left)
    else
      var (memType, left') := InnerPass(table[..|table| - 1], d, left);
      var e := table[|table| - 1];
      if e.physicalStart == d.physicalStart then (e.memType, CountDown(left')) else (memType, left')
  }

  /** Some table entry starts where `d` starts. */
  predicate HasEntryFor(table: seq<RelocInfo>, start: nat) {
    exists e :: 0 <= e < |table| && table[e].physicalStart == start
  }

  lemma {:induction false} InnerPassWithoutEntry(table: seq<RelocInfo>, d: Descriptor, left: nat)
    requires !HasEntryFor(table, d.physicalStart)
    ensures InnerPass(table, d, left) == (d.memType, left)
  {
    if |table| > 0 {
      var p := table[..|table| - 1];
      assert forall e :: 0 <= e < |p| ==> p[e] == table[e];
      InnerPassWithoutEntry(p, d, left);
    }
  }

  lemma InnerPassWithoutEntryWhenAbsent(table: seq<RelocInfo>, d: Descriptor, left: nat)
    ensures !HasEntryFor(table, d.physicalStart) ==> InnerPass(table, d, left) == (d.memType, left)
  {
    if !HasEntryFor(table, d.physicalStart) {
      InnerPassWithoutEntry(table, d, left);
    }
  }

  /** The outer loop over the first descriptors of the map: the map so far and the
      entries left. Once none are left the remaining descriptors are not looked at. */
  function RestorePrefix(m: seq<Descriptor>, table: seq<RelocInfo>): (r: (seq<Descriptor>, nat))
    ensures |r.0| == |m|
    ensures forall i :: 0 <= i < |m| ==> r.0[i] == m[i].(memType := r.0[i].memType)
    ensures forall i :: 0 <= i < |m| && !HasEntryFor(table, m[i].physicalStart) ==> r.0[i] == m[i]
  {
    if |m| == 0 then ([], |table|)
    else
      var p := m[..|m| - 1];
      var d := m[|m| - 1];
      var (done, left) := RestorePrefix(p, table);
      assert forall i :: 0 <= i < |p| ==> p[i] == m[i];
      if left > 0 then
        var (memType, left') := InnerPass(table, d, left);
        InnerPassWithoutEntryWhenAbsent(table, d, left);
        (done + [d.(memType := memType)], left')
      else (done + [d], left)
  }

  /** RestoreProtectedRtMemoryTypes: only the Type of a descriptor is written, only
      where a recorded entry has the same start, and an empty table leaves the map
      as it is. */
  function RestoreProtectedRtMemoryTypes(m: seq<Descriptor>, table: seq<RelocInfo>): (r: seq<Descriptor>)
    ensures |r| == |m|
    ensures forall i :: 0 <= i < |m| ==> r[i] == m[i].(memType := r[i].memType)
    ensures forall i :: 0 <= i < |m| && !HasEntryFor(table, m[i].physicalStart) ==> r[i] == m[i]
    ensures |table| == 0 ==> r == m
  {
    if |table| > 0 then RestorePrefix(m, table).0 else m
  }

  /** No two descriptors of the map start at the same address. */
  predicate DistinctStarts(m: seq<Descriptor>) {
    forall i, j :: 0 <= i < j < |m| ==> m[i].physicalStart != m[j].physicalStart
  }

  /** Number of qualifying descriptors among the first `n`. */
  function ProtectedCount(m: seq<Descriptor>, sysTableArea: nat): nat {
    |ProtectedPairs(m, sysTableArea)|
  }

  /** Entries of the full table come from the map: an entry for `start` exists
      exactly when a qualifying descriptor starts there, and (starts being
      distinct) it is the only one and holds that descriptor's type. */
  lemma {:induction false} ProtectedPairsEntries(m: seq<Descriptor>, sysTableArea: nat, k: nat)
    requires DistinctStarts(m) && k < |m|
    ensures var t := ProtectedPairs(m, sysTableArea);
      && (ShouldProtect(m[k], sysTableArea) <==> HasEntryFor(t, m[k].physicalStart))
      && (forall e :: 0 <= e < |t| && t[e].physicalStart == m[k].physicalStart ==> t[e].memType == m[k].memType)
  {
    var n := |m| - 1;
    var p := m[..n];
    var d := m[n];
    var t := ProtectedPairs(m, sysTableArea);
    var tp := ProtectedPairs(p, sysTableArea);
    assert DistinctStarts(p);
    if k < n {
      ProtectedPairsEntries(p, sysTableArea, k);
      assert p[k] == m[k];
      assert d.physicalStart != m[k].physicalStart;
      if HasEntryFor(t, m[k].physicalStart) {
        var e :| 0 <= e < |t| && t[e].physicalStart == m[k].physicalStart;
        assert e < |tp| && tp[e] == t[e];
      }
      if HasEntryFor(tp, m[k].physicalStart) {
        var e :| 0 <= e < |tp| && tp[e].physicalStart == m[k].physicalStart;
        assert t[e] == tp[e];
      }
    } else {
      forall e | 0 <= e < |tp|
        ensures tp[e].physicalStart != d.physicalStart
      {
        StartsOfPairs(p, sysTableArea, e);
      }
      if ShouldProtect(d, sysTableArea) {
        assert t[|tp|].physicalStart == d.physicalStart;
      }
    }
  }

  /** Every table entry names a descriptor of the map. */
  lemma {:induction false} StartsOfPairs(m: seq<Descriptor>, sysTableArea: nat, e: nat)
    requires e < |ProtectedPairs(m, sysTableArea)|
    ensures exists k :: 0 <= k < |m| && ProtectedPairs(m, sysTableArea)[e].physicalStart == m[k].physicalStart
  {
    var p := m[..|m| - 1];
    var tp := ProtectedPairs(p, sysTableArea);
    if e < |tp| {
      StartsOfPairs(p, sysTableArea, e);
      var k :| 0 <= k < |p| && tp[e].physicalStart == p[k].physicalStart;
      assert p[k] == m[k];
    } else {
      assert ProtectedPairs(m, sysTableArea)[e].physicalStart == m[|m| - 1].physicalStart;
    }
  }

  /** With exactly one entry for the descriptor's start, the inner loop writes that
      entry's type and counts down once. */
  lemma {:induction false} InnerPassWithOneEntry(table: seq<RelocInfo>, d: Descriptor, left: nat, e: nat)
    requires e < |table| && table[e].physicalStart == d.physicalStart
    requires forall f :: 0 <= f < |table| && f != e ==> table[f].physicalStart != d.physicalStart
    ensures InnerPass(table, d, left) == (table[e].memType, CountDown(left))
  {
    var p := table[..|table| - 1];
    if e == |table| - 1 {
      InnerPassWithoutEntry(p, d, left);
    } else {
      InnerPassWithOneEntry(p, d, left, e);
    }
  }

  /** Entries of the full table start at distinct addresses when the map's
      descriptors do. */
  lemma ProtectedPairsDistinct(m: seq<Descriptor>, sysTableArea: nat, e: nat, f: nat)
    requires DistinctStarts(m)
    requires e < f < |ProtectedPairs(m, sysTableArea)|
    ensures ProtectedPairs(m, sysTableArea)[e].physicalStart != ProtectedPairs(m, sysTableArea)[f].physicalStart
  {
    var t := ProtectedPairs(m, sysTableArea);
    var p := m[..|m| - 1];
    var tp := ProtectedPairs(p, sysTableArea);
    assert DistinctStarts(p);
    if f < |tp| {
      ProtectedPairsDistinct(p, sysTableArea, e, f);
    } else {
      StartsOfPairs(p, sysTableArea, e);
      var k :| 0 <= k < |p| && tp[e].physicalStart == p[k].physicalStart;
      assert p[k] == m[k];
    }
  }

  /** Table entries start at pairwise distinct addresses. */
  predicate DistinctEntries(t: seq<RelocInfo>) {
    forall e, f :: 0 <= e < f < |t| ==> t[e].physicalStart != t[f].physicalStart
  }

  /** `pm` is `m` with exactly the qualifying descriptors retyped as MMIO. */
  predicate RetypedFrom(pm: seq<Descriptor>, m: seq<Descriptor>, sysTableArea: nat) {
    |pm| == |m|
    && forall i :: 0 <= i < |m| ==>
      pm[i] == if ShouldProtect(m[i], sysTableArea) then m[i].(memType := MemoryMappedIo) else m[i]
  }

  /** One descriptor of the restore pass: an entry for its start puts back the
      original type; without one it was never retyped. */
  lemma InnerPassUndoes(t: seq<RelocInfo>, d: Descriptor, original: Descriptor, left: nat)
    requires DistinctEntries(t) && left > 0
    requires HasEntryFor(t, d.physicalStart) ==>
      && d == original.(memType := MemoryMappedIo)
      && forall e :: 0 <= e < |t| && t[e].physicalStart == d.physicalStart ==> t[e].memType == original.memType
    requires !HasEntryFor(t, d.physicalStart) ==> d == original
    ensures InnerPass(t, d, left)
      == (original.memType, if HasEntryFor(t, d.physicalStart) then CountDown(left) else left)
  {
    if HasEntryFor(t, d.physicalStart) {
      var e :| 0 <= e < |t| && t[e].physicalStart == d.physicalStart;
      InnerPassWithOneEntry(t, d, left, e);
    } else {
      InnerPassWithoutEntry(t, d, left);
    }
  }

  /** The restore pass over the protected map, descriptor by descriptor: the first
      `n` descriptors are back to their original types, and the entries left equal
      the table size minus the qualifying descriptors met so far. */
  lemma {:induction false} RestorePrefixUndoes(m: seq<Descriptor>, pm: seq<Descriptor>, sysTableArea: nat, n: nat)
    requires DistinctStarts(m) && n <= |m|
    requires RetypedFrom(pm, m, sysTableArea)
    requires DistinctEntries(ProtectedPairs(m, sysTableArea))
    ensures var r := RestorePrefix(pm[..n], ProtectedPairs(m, sysTableArea));
      r.0 == m[..n] && r.1 == ProtectedCount(m, sysTableArea) - ProtectedCount(m[..n], sysTableArea)
  {
    var t := ProtectedPairs(m, sysTableArea);
    if n > 0 {
      RestorePrefixUndoes(m, pm, sysTableArea, n - 1);
      var q := pm[..n];
      assert q[..n - 1] == pm[..n - 1];
      var d := pm[n - 1];
      var (done, left) := RestorePrefix(q[..n - 1], t);
      PrefixCountGrows(m, sysTableArea, n);
      ProtectedPairsEntries(m, sysTableArea, n - 1);
      assert m[..n] == m[..n - 1] + [m[n - 1]];
      if ShouldProtect(m[n - 1], sysTableArea) {
        InnerPassUndoes(t, d, m[n - 1], left);
      } else if left > 0 {
        InnerPassUndoes(t, d, m[n - 1], left);
      }
    }
  }

  /** The qualifying count of a prefix grows by one exactly at qualifying descriptors
      and never passes the full count. */
  lemma PrefixCountGrows(m: seq<Descriptor>, sysTableArea: nat, n: nat)
    requires 0 < n <= |m|
    ensures ProtectedCount(m[..n], sysTableArea)
      == ProtectedCount(m[..n - 1], sysTableArea) + (if ShouldProtect(m[n - 1], sysTableArea) then 1 else 0)
    ensures ProtectedCount(m[..n], sysTableArea) <= ProtectedCount(m, sysTableArea)
  {
    assert m[..n][..n - 1] == m[..n - 1];
    PrefixCountBounded(m, sysTableArea, n);
  }

  lemma {:induction false} PrefixCountBounded(m: seq<Descriptor>, sysTableArea: nat, n: nat)
    requires n <= |m|
    ensures ProtectedCount(m[..n], sysTableArea) <= ProtectedCount(m, sysTableArea)
    decreases |m| - n
  {
    if n < |m| {
      PrefixCountBounded(m, sysTableArea, n + 1);
      assert m[..n + 1][..n] == m[..n];
    } else {
      assert m[..n] == m;
    }
  }

  /** Round trip: when descriptors start at distinct addresses and at most 64 of them
      qualify, restoring after protecting gives back the original map. */
  lemma ProtectRestoreRoundTrip(m: seq<Descriptor>, sysTableArea: nat)
    requires DistinctStarts(m)
    requires ProtectedCount(m, sysTableArea) <= MaxRtRelocNum
    ensures var prot := ProtectRtMemoryFromRelocation(m, sysTableArea);
      RestoreProtectedRtMemoryTypes(prot.memoryMap, prot.table) == m
  {
    var prot := ProtectRtMemoryFromRelocation(m, sysTableArea);
    var t := ProtectedPairs(m, sysTableArea);
    assert prot.table == t;
    forall e, f | 0 <= e < f < |t|
      ensures t[e].physicalStart != t[f].physicalStart
    {
      ProtectedPairsDistinct(m, sysTableArea, e, f);
    }
    RestorePrefixUndoes(m, prot.memoryMap, sysTableArea, |m|);
    assert prot.memoryMap[..|m|] == prot.memoryMap;
    assert m[..|m|] == m;
    if |t| == 0 {
      var r := RestorePrefix(prot.memoryMap, t).0;
      assert forall i :: 0 <= i < |m| ==> r[i] == prot.memoryMap[i];
    }
  }

  /** OrgGetVariable: the saved original when the hook has captured one, otherwise
      the current runtime-services entry; the arguments are passed as they are. */
  function OrgGetVariable<A>(savedOriginal: Option<nat>, currentService: nat, args: A): (call: (nat, A))
    ensures call.1 == args
    ensures savedOriginal.Some? ==> call.0 == savedOriginal.value
    ensures savedOriginal.None? ==> call.0 == currentService
  {
    (if savedOriginal.Some? then savedOriginal.value else currentService, args)
  }
}
