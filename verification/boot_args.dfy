/** XNU boot_args handling: the version-agnostic field view, the page-step signature
    scan for the structure, and removal of an argument from its command line. */
module BootArgs {
  import opened Types

  const BootLineLength: nat := 1024
  const BootArgsVersion1: nat := 1
  const BootArgsVersion2: nat := 2
  const BootArgsRevision2_0: nat := 0
  /** kBootArgsFlagCSRActiveConfig, bit 3 of boot_args->flags. */
  const FlagCsrActiveConfig: bv16 := 0x8
  /** sizeof(UINTN) * 8 on the X64 build. */
  const ArchMode: nat := 64
  /** Step of the boot_args scan: one page. */
  const ScanStep: nat := 0x1000

  /** The two structure revisions a pointer of the view can land in. */
  datatype Layout = Layout1 | Layout2

  /** Fields of boot_args the view exposes. */
  datatype Field =
    | MemoryMapField
    | MemoryMapSizeField
    | DescriptorSizeField
    | DescriptorVersionField
    | CommandLineField
    | DeviceTreePField
    | DeviceTreeLengthField
    | CsrActiveConfigField

  /** A pointer into the caller's boot_args: which structure layout and which field. */
  datatype FieldPtr = FieldPtr(layout: Layout, field: Field)

  /** AMF_BOOT_ARGUMENTS; `None` is a NULL pointer. */
  datatype BootArgumentsView = BootArgumentsView(
    memoryMap: Option<FieldPtr>,
    memoryMapSize: Option<FieldPtr>,
    descriptorSize: Option<FieldPtr>,
    descriptorVersion: Option<FieldPtr>,
    commandLine: Option<FieldPtr>,
    deviceTreeP: Option<FieldPtr>,
    deviceTreeLength: Option<FieldPtr>,
    csrActiveConfig: Option<FieldPtr>)

  /** Every common field of the view points into the given layout. */
  predicate CommonFieldsIn(v: BootArgumentsView, l: Layout) {
    && v.memoryMap == Some(FieldPtr(l, MemoryMapField))
    && v.memoryMapSize == Some(FieldPtr(l, MemoryMapSizeField))
    && v.descriptorSize == Some(FieldPtr(l, DescriptorSizeField))
    && v.descriptorVersion == Some(FieldPtr(l, DescriptorVersionField))
    && v.commandLine == Some(FieldPtr(l, CommandLineField))
    && v.deviceTreeP == Some(FieldPtr(l, DeviceTreePField))
    && v.deviceTreeLength == Some(FieldPtr(l, DeviceTreeLengthField))
  }

  /** GetBootArgs: Version and Revision sit at the same offsets in both layouts, so
      the Version word alone selects the layout; the view starts zeroed. */
  function GetBootArgs(version: nat, flags: bv16): (v: BootArgumentsView)
    ensures version == BootArgsVersion1 ==> CommonFieldsIn(v, Layout1) && v.csrActiveConfig.None?
    ensures version != BootArgsVersion1 ==> CommonFieldsIn(v, Layout2)
    ensures version != BootArgsVersion1 ==>
      (v.csrActiveConfig.Some? <==> flags & FlagCsrActiveConfig != 0)
    ensures v.csrActiveConfig.Some? ==> v.csrActiveConfig.value == FieldPtr(Layout2, CsrActiveConfigField)
  {
    var l := if version == BootArgsVersion1 then Layout1 else Layout2;
    var zeroed := BootArgumentsView(None, None, None, None, None, None, None, None);
    var common := zeroed.(
      memoryMap := Some(FieldPtr(l, MemoryMapField)),
      memoryMapSize := Some(FieldPtr(l, MemoryMapSizeField)),
      descriptorSize := Some(FieldPtr(l, DescriptorSizeField)),
      descriptorVersion := Some(FieldPtr(l, DescriptorVersionField)),
      commandLine := Some(FieldPtr(l, CommandLineField)),
      deviceTreeP := Some(FieldPtr(l, DeviceTreePField)),
      deviceTreeLength := Some(FieldPtr(l, DeviceTreeLengthField)));
    if l == Layout2 && flags & FlagCsrActiveConfig != 0 then
      common.(csrActiveConfig := Some(FieldPtr(Layout2, CsrActiveConfigField)))
    else
      common
  }

  /** The words BootArgsFind reads at one candidate address, read through both
      layouts (Revision and Version are shared; the rest differ in offset). */
  datatype Candidate = Candidate(
    revision: nat,
    version: nat,
    efiMode2: nat, kaddr2: nat, ksize2: nat, efiSystemTable2: nat,
    efiMode1: nat, kaddr1: nat, ksize1: nat, efiSystemTable1: nat)

  predicate MatchesVersion2(c: Candidate) {
    c.version == BootArgsVersion2 && c.revision == BootArgsRevision2_0
    && c.efiMode2 == ArchMode && c.kaddr2 == 0 && c.ksize2 == 0 && c.efiSystemTable2 == 0
  }

  predicate MatchesVersion1(c: Candidate) {
    c.version == BootArgsVersion1 && (c.revision == 6 || c.revision == 5 || c.revision == 4)
    && c.efiMode1 == ArchMode && c.kaddr1 == 0 && c.ksize1 == 0 && c.efiSystemTable1 == 0
  }

  /** The acceptance test of one step: the Version 2 check runs first, then Version 1. */
  predicate IsBootArgs(c: Candidate) {
    MatchesVersion2(c) || MatchesVersion1(c)
  }

  /** BootArgsFind from `start + steps * 0x1000` on. The C loop has no bound; here
      `limit` is a step at which the caller knows a match lies, which is what makes
      the scan terminate. */
  function FindFrom(memory: nat -> Candidate, start: nat, steps: nat, limit: nat): (r: nat)
    requires steps <= limit
    requires IsBootArgs(memory(start + limit * ScanStep))
    ensures steps <= r <= limit
    ensures IsBootArgs(memory(start + r * ScanStep))
    ensures forall k :: steps <= k < r ==> !IsBootArgs(memory(start + k * ScanStep))
    decreases limit - steps
  {
    if IsBootArgs(memory(start + steps * ScanStep)) then steps
    else FindFrom(memory, start, steps + 1, limit)
  }

  /** BootArgsFind: the address of the first page-step candidate, at or after
      `start`, that looks like boot_args. */
  function BootArgsFind(memory: nat -> Candidate, start: nat, limit: nat): (address: nat)
    requires IsBootArgs(memory(start + limit * ScanStep))
    ensures IsBootArgs(memory(address))
    ensures start <= address && (address - start) % ScanStep == 0
    ensures forall k :: 0 <= k && start + k * ScanStep < address ==> !IsBootArgs(memory(start + k * ScanStep))
  {
    var k := FindFrom(memory, start, 0, limit);
    assert (k * ScanStep) % ScanStep == 0;
    start + k * ScanStep
  }

  // ---------------------------------------------------------------------------
  // RemoveArgumentFromCommandLine

  /** `arg` occurs in `s` starting at index `j`. */
  predicate OccursAt(s: seq<char>, arg: seq<char>, j: nat) {
    j + |arg| <= |s| && s[j..j + |arg|] == arg
  }

  /** AsciiStrStr: the first index at which `arg` occurs in `s`; an empty `arg`
      occurs at 0. */
  function FindFirst(s: seq<char>, arg: seq<char>, from: nat): (r: Option<nat>)
    requires from <= |s|
    ensures r.Some? ==> from <= r.value && OccursAt(s, arg, r.value)
    ensures r.Some? ==> forall j :: from <= j < r.value ==> !OccursAt(s, arg, j)
    ensures r.None? ==> forall j :: from <= j ==> !OccursAt(s, arg, j)
    decreases |s| - from
  {
    if from + |arg| > |s| then None
    else if OccursAt(s, arg, from) then Some(from)
    else FindFirst(s, arg, from + 1)
  }

  /** An occurrence at `i` that starts the line or follows a space. */
  predicate AtTokenStart(s: seq<char>, i: nat)
    requires i <= |s|
  {
    i == 0 || s[i - 1] == ' '
  }

  /** Index of the first space at or after `i`, or the end of the line. */
  function NextSpace(s: seq<char>, i: nat): (e: nat)
    requires i <= |s|
    ensures i <= e <= |s|
    ensures e == |s| || s[e] == ' '
    ensures forall k :: i <= k < e ==> s[k] != ' '
    decreases |s| - i
  {
    if i == |s| || s[i] == ' ' then i else NextSpace(s, i + 1)
  }

  lemma {:induction false} NextSpaceAgree(s: seq<char>, t: seq<char>, i: nat)
    requires i <= |s| == |t|
    requires forall k :: i <= k < |s| ==> s[k] == t[k]
    ensures NextSpace(s, i) == NextSpace(t, i)
    decreases |s| - i
  {
    if i == |s| || s[i] == ' ' {
    } else {
      NextSpaceAgree(s, t, i + 1);
    }
  }

  /** Overwrites s[i..] with spaces up to the next space or the end: exactly the
      token starting at `i` turns into spaces. */
  function BlankToken(s: seq<char>, i: nat): (r: seq<char>)
    requires i <= |s|
    ensures |r| == |s|
    ensures forall k :: 0 <= k < |s| ==> r[k] == (if i <= k < NextSpace(s, i) then ' ' else s[k])
    decreases |s| - i
  {
    if i == |s| || s[i] == ' ' then s
    else
      var t := s[..i] + [' '] + s[i + 1..];
      NextSpaceAgree(s, t, i + 1);
      BlankToken(t, i + 1)
  }

  function NonSpaceCount(s: seq<char>): nat {
    if |s| == 0 then 0 else NonSpaceCount(s[..|s| - 1]) + (if s[|s| - 1] == ' ' then 0 else 1)
  }

  /** The do-while loop of RemoveArgumentFromCommandLine. `None` means the C loop
      never ends: the first occurrence is not at a token start, or blanking it
      makes no progress, so the same match is found again forever. */
  function BlankArgument(s: seq<char>, arg: seq<char>): (r: Option<seq<char>>)
    ensures r.Some? ==> |r.value| == |s|
    ensures r.Some? ==> forall k :: 0 <= k < |s| ==> r.value[k] == s[k] || r.value[k] == ' '
    ensures r.Some? && SpaceFree(arg) ==>
      forall k :: 0 <= k < |s| ==> r.value[k] == (if InArgumentToken(s, arg, k) then ' ' else s[k])
    decreases NonSpaceCount(s)
  {
    match FindFirst(s, arg, 0)
    case None => Some(s)
    case Some(i) =>
      if AtTokenStart(s, i) && i < |s| && s[i] != ' ' then
        var s' := BlankToken(s, i);
        BlankTokenProgress(s, i);
        BlankTokenArgumentTokens(s, arg, i);
        BlankArgument(s', arg)
      else
        None
  }

  /** A non-empty argument with no space in it, such as "slide=". */
  predicate SpaceFree(arg: seq<char>) {
    |arg| > 0 && forall k :: 0 <= k < |arg| ==> arg[k] != ' '
  }

  /** Position `k` lies in a token of `s` that starts with an occurrence of `arg`:
      the characters the removal is meant to blank. */
  predicate InArgumentToken(s: seq<char>, arg: seq<char>, k: nat) {
    exists j: nat :: j <= k && j <= |s| && AtTokenStart(s, j) && OccursAt(s, arg, j) && k < NextSpace(s, j)
  }

  /** The line with every token that starts with an occurrence of `arg` turned
      into spaces: what the removal loop is meant to leave before compaction. */
  function WithoutArgumentTokens(s: seq<char>, arg: seq<char>): (r: seq<char>)
    ensures |r| == |s|
  {
    seq(|s|, k requires 0 <= k < |s| => if InArgumentToken(s, arg, k) then ' ' else s[k])
  }

  /** Blanking the token of a token-start occurrence at `i`: a position lies in an
      argument token of the old line iff it was just blanked or lies in an argument
      token of the new line. */
  lemma BlankTokenArgumentTokens(s: seq<char>, arg: seq<char>, i: nat)
    requires i < |s| && AtTokenStart(s, i) && OccursAt(s, arg, i)
    ensures SpaceFree(arg) ==> forall k: nat :: k < |s| ==>
      (InArgumentToken(s, arg, k) <==> (i <= k < NextSpace(s, i) || InArgumentToken(BlankToken(s, i), arg, k)))
  {
    if SpaceFree(arg) {
      var t := BlankToken(s, i);
      forall k: nat | k < |s|
        ensures InArgumentToken(s, arg, k) <==> (i <= k < NextSpace(s, i) || InArgumentToken(t, arg, k))
      {
        if InArgumentToken(t, arg, k) {
          var j: nat :| j <= k && j <= |t| && AtTokenStart(t, j) && OccursAt(t, arg, j) && k < NextSpace(t, j);
          BlankedOccurrenceWasThere(s, arg, i, j);
        }
        if InArgumentToken(s, arg, k) {
          var j: nat :| j <= k && j <= |s| && AtTokenStart(s, j) && OccursAt(s, arg, j) && k < NextSpace(s, j);
          if j != i {
            OtherOccurrenceSurvives(s, arg, i, j);
          }
        }
      }
    }
  }

  /** A token-start occurrence after blanking was one before, and its token has not
      grown. */
  lemma BlankedOccurrenceWasThere(s: seq<char>, arg: seq<char>, i: nat, j: nat)
    requires i < |s| && SpaceFree(arg)
    requires j <= |s| && AtTokenStart(BlankToken(s, i), j) && OccursAt(BlankToken(s, i), arg, j)
    ensures AtTokenStart(s, j) && OccursAt(s, arg, j) && NextSpace(BlankToken(s, i), j) <= NextSpace(s, j)
  {
    var t := BlankToken(s, i);
    forall m | j <= m < j + |arg|
      ensures s[m] == t[m] && t[m] != ' '
    {
      assert t[m] == t[j..j + |arg|][m - j] == arg[m - j];
    }
    assert s[j..j + |arg|] == t[j..j + |arg|];
    if j > 0 {
      var e := NextSpace(s, i);
      assert t[j] == (if i <= j < e then ' ' else s[j]);
      assert !(i <= j < e) && s[j] != ' ';
      assert t[j - 1] == s[j - 1];
    }
  }

  /** A token-start occurrence other than the blanked one is left whole, with the
      same token. */
  lemma OtherOccurrenceSurvives(s: seq<char>, arg: seq<char>, i: nat, j: nat)
    requires i < |s| && AtTokenStart(s, i) && SpaceFree(arg)
    requires j <= |s| && j != i && AtTokenStart(s, j) && OccursAt(s, arg, j)
    ensures AtTokenStart(BlankToken(s, i), j) && OccursAt(BlankToken(s, i), arg, j)
    ensures NextSpace(BlankToken(s, i), j) == NextSpace(s, j)
  {
    var t := BlankToken(s, i);
    forall m | j <= m < j + |arg|
      ensures s[m] != ' '
    {
      assert s[m] == s[j..j + |arg|][m - j] == arg[m - j];
    }
    var e := NextSpace(s, j);
    assert j + |arg| <= e;
    if j < i {
      assert e <= i - 1;
      forall m | 0 <= m < i
        ensures t[m] == s[m]
      {
      }
    } else {
      assert NextSpace(s, i) <= j - 1;
      forall m | j - 1 <= m < |s|
        ensures t[m] == s[m]
      {
      }
      NextSpaceAgree(s, t, j);
    }
    assert t[j..j + |arg|] == s[j..j + |arg|];
  }

  /** The blanking loop as intended, scanning from `from` on: every occurrence at
      a token start has its token blanked, and an occurrence inside a token is
      passed over instead of being found again. Only spaces are ever written. */
  function BlankArgumentIntended(s: seq<char>, arg: seq<char>, from: nat): (r: seq<char>)
    requires from <= |s|
    ensures |r| == |s|
    ensures forall k :: 0 <= k < |s| ==> r[k] == s[k] || r[k] == ' '
    decreases |s| - from
  {
    if from == |s| then s
    else if OccursAt(s, arg, from) && AtTokenStart(s, from) then BlankArgumentIntended(BlankToken(s, from), arg, from + 1)
    else BlankArgumentIntended(s, arg, from + 1)
  }

  lemma NonSpaceCountSplit(a: seq<char>, b: seq<char>)
    ensures NonSpaceCount(a + b) == NonSpaceCount(a) + NonSpaceCount(b)
    decreases |b|
  {
    if |b| == 0 {
      assert a + b == a;
    } else {
      assert (a + b)[..|a + b| - 1] == a + b[..|b| - 1];
      NonSpaceCountSplit(a, b[..|b| - 1]);
    }
  }

  lemma {:induction false} BlankTokenNoGrowth(s: seq<char>, i: nat)
    requires i <= |s|
    ensures NonSpaceCount(BlankToken(s, i)) <= NonSpaceCount(s)
    decreases |s| - i
  {
    if i == |s| || s[i] == ' ' {
    } else {
      var t := s[..i] + [' '] + s[i + 1..];
      assert s == s[..i] + [s[i]] + s[i + 1..];
      NonSpaceCountSplit(s[..i] + [s[i]], s[i + 1..]);
      NonSpaceCountSplit(s[..i], [s[i]]);
      NonSpaceCountSplit(s[..i] + [' '], s[i + 1..]);
      NonSpaceCountSplit(s[..i], [' ']);
      assert NonSpaceCount([' ']) == 0 by { assert [' '][..0] == []; }
      BlankTokenNoGrowth(t, i + 1);
    }
  }

  lemma {:induction false} BlankTokenProgress(s: seq<char>, i: nat)
    requires i < |s| && s[i] != ' '
    ensures NonSpaceCount(BlankToken(s, i)) < NonSpaceCount(s)
  {
    var t := s[..i] + [' '] + s[i + 1..];
    assert s == s[..i] + [s[i]] + s[i + 1..];
    NonSpaceCountSplit(s[..i] + [s[i]], s[i + 1..]);
    NonSpaceCountSplit(s[..i], [s[i]]);
    NonSpaceCountSplit(s[..i] + [' '], s[i + 1..]);
    NonSpaceCountSplit(s[..i], [' ']);
    assert NonSpaceCount([s[i]]) == 1 by { assert [s[i]][..0] == []; }
    assert NonSpaceCount([' ']) == 0 by { assert [' '][..0] == []; }
    BlankTokenNoGrowth(t, i + 1);
  }

  function SkipLeadingSpaces(s: seq<char>): (r: seq<char>)
    ensures |r| <= |s|
    ensures |r| > 0 ==> r[0] != ' '
    ensures r == s[|s| - |r|..]
  {
    if |s| > 0 && s[0] == ' ' then SkipLeadingSpaces(s[1..]) else s
  }

  /** The copy loop: a space is dropped while the next character is also a space,
      so no two spaces stay adjacent and every other character is kept in order. */
  function CollapseSpaces(s: seq<char>): (r: seq<char>)
    ensures |r| <= |s|
    ensures |s| > 0 && s[0] != ' ' ==> |r| > 0 && r[0] == s[0]
    ensures NoDoubleSpace(r)
    ensures Words(r) == Words(s)
    decreases |s|
  {
    if |s| == 0 then []
    else if s[0] == ' ' && |s| > 1 && s[1] == ' ' then
      assert Words(s) == [] + Words(s[1..]);
      CollapseSpaces(s[1..])
    else
      var r := [s[0]] + CollapseSpaces(s[1..]);
      assert r[1..] == CollapseSpaces(s[1..]);
      r
  }

  /** The compaction phase. */
  function Compact(s: seq<char>): (r: seq<char>)
    ensures |r| <= |s|
  {
    CollapseSpaces(SkipLeadingSpaces(s))
  }

  function Zeros(n: nat): (r: seq<char>)
    ensures |r| == n && forall i :: 0 <= i < n ==> r[i] == '\0'
  {
    seq(n, _ => '\0')
  }

  /** RemoveArgumentFromCommandLine on the characters before the terminating NUL.
      The result is the same stretch of the buffer after the call: the compacted
      line followed by the zeroes written over the freed tail. `None` when the
      C loop does not terminate. */
  function RemoveArgumentFromCommandLine(line: seq<char>, arg: seq<char>): (r: Option<seq<char>>)
    ensures r.Some? ==> |r.value| == |line|
    ensures r.Some? && SpaceFree(arg) ==>
      var c := Compact(WithoutArgumentTokens(line, arg));
      r.value == c + Zeros(|line| - |c|)
  {
    match BlankArgument(line, arg)
    case None => None
    case Some(blanked) =>
      assert SpaceFree(arg) ==> blanked == WithoutArgumentTokens(line, arg);
      var c := Compact(blanked);
      Some(c + Zeros(|line| - |c|))
  }

  /** Line contents: everything before the first NUL. */
  function Contents(s: seq<char>): seq<char> {
    if |s| == 0 || s[0] == '\0' then [] else [s[0]] + Contents(s[1..])
  }

  predicate NoDoubleSpace(s: seq<char>) {
    forall i :: 0 <= i < |s| - 1 ==> !(s[i] == ' ' && s[i + 1] == ' ')
  }

  predicate NoNul(s: seq<char>) {
    forall i :: 0 <= i < |s| ==> s[i] != '\0'
  }

  /** Characters of `s` other than spaces, in order. */
  function Words(s: seq<char>): seq<char> {
    if |s| == 0 then [] else (if s[0] == ' ' then [] else [s[0]]) + Words(s[1..])
  }
}

/** Lemmas about BootArgs.RemoveArgumentFromCommandLine. */
module BootArgsLemmas {
  import opened Types
  import opened BootArgs

  /** A space-free argument that only ever occurs at token starts keeps doing so
      after one token has been blanked. */
  lemma BlankTokenKeepsOccurrencesAtTokenStart(s: seq<char>, arg: seq<char>, i: nat)
    requires i <= |s|
    requires forall k :: 0 <= k < |arg| ==> arg[k] != ' '
    requires forall j :: OccursAt(s, arg, j) ==> AtTokenStart(s, j)
    ensures forall j :: OccursAt(BlankToken(s, i), arg, j) ==> AtTokenStart(BlankToken(s, i), j)
  {
    var t := BlankToken(s, i);
    forall j: nat | OccursAt(t, arg, j)
      ensures AtTokenStart(t, j)
    {
      forall k | j <= k < j + |arg|
        ensures s[k] == t[k]
      {
        assert t[k] == t[j..j + |arg|][k - j] == arg[k - j];
      }
      assert s[j..j + |arg|] == t[j..j + |arg|];
      assert OccursAt(s, arg, j);
      if j > 0 {
        assert s[j - 1] == ' ';
      }
    }
  }

  /** Termination of the removal loop: it returns when the argument is non-empty,
      has no spaces and occurs only at token starts; otherwise the line can make
      the C loop spin forever. */
  lemma {:induction false} BlankArgumentTerminates(s: seq<char>, arg: seq<char>)
    requires |arg| > 0
    requires forall k :: 0 <= k < |arg| ==> arg[k] != ' '
    requires forall j :: OccursAt(s, arg, j) ==> AtTokenStart(s, j)
    ensures BlankArgument(s, arg).Some?
    decreases NonSpaceCount(s)
  {
    match FindFirst(s, arg, 0)
    case None =>
    case Some(i) =>
      assert OccursAt(s, arg, i);
      assert s[i] == arg[0];
      BlankTokenProgress(s, i);
      BlankTokenKeepsOccurrencesAtTokenStart(s, arg, i);
      BlankArgumentTerminates(BlankToken(s, i), arg);
  }

  /** The first occurrence not at a token start is found again on every
      iteration: the loop never ends. */
  lemma FirstOccurrenceInsideTokenDiverges(s: seq<char>, arg: seq<char>, i: nat)
    requires FindFirst(s, arg, 0) == Some(i)
    requires !AtTokenStart(s, i)
    ensures BlankArgument(s, arg).None?
  {
  }

  /** A concrete line on which the loop as written never returns: "slide=" first
      occurs inside the token "xslide=1". */
  lemma SlideInsideTokenDiverges()
    ensures BlankArgument("xslide=1 slide=0", "slide=").None?
  {
    var s := "xslide=1 slide=0";
    var arg := "slide=";
    assert s[0..6][0] != arg[0];
    assert s[1..7] == arg;
    assert FindFirst(s, arg, 0) == Some(1);
    FirstOccurrenceInsideTokenDiverges(s, arg, 1);
  }

  /** No occurrence of `arg` before `bound` sits at a token start. */
  predicate TokenStartsClear(s: seq<char>, arg: seq<char>, bound: nat) {
    forall j: nat :: j < bound && OccursAt(s, arg, j) ==> !AtTokenStart(s, j)
  }

  /** The intended loop leaves no occurrence of a non-empty, space-free argument at
      a token start. */
  lemma BlankArgumentIntendedClears(s: seq<char>, arg: seq<char>)
    requires |arg| > 0
    requires forall k :: 0 <= k < |arg| ==> arg[k] != ' '
    ensures var r := BlankArgumentIntended(s, arg, 0);
      forall j :: OccursAt(r, arg, j) ==> !AtTokenStart(r, j)
  {
    var r := BlankArgumentIntended(s, arg, 0);
    BlankArgumentIntendedClearsFrom(s, arg, 0, r);
    forall j: nat | OccursAt(r, arg, j)
      ensures !AtTokenStart(r, j)
    {
      assert j < |r| + 1;
    }
  }

  lemma {:induction false} BlankArgumentIntendedClearsFrom(s: seq<char>, arg: seq<char>, from: nat, r: seq<char>)
    requires from <= |s| && |arg| > 0
    requires forall k :: 0 <= k < |arg| ==> arg[k] != ' '
    requires TokenStartsClear(s, arg, from)
    requires r == BlankArgumentIntended(s, arg, from)
    ensures TokenStartsClear(r, arg, |r| + 1)
    decreases |s| - from
  {
    if from == |s| {
      assert r == s;
    } else if OccursAt(s, arg, from) && AtTokenStart(s, from) {
      BlankingKeepsTokenStartsClear(s, arg, from);
      BlankArgumentIntendedClearsFrom(BlankToken(s, from), arg, from + 1, r);
    } else {
      assert TokenStartsClear(s, arg, from + 1);
      BlankArgumentIntendedClearsFrom(s, arg, from + 1, r);
    }
  }

  /** Blanking the token of a token-start occurrence at `i`, with none before it,
      leaves none up to and including `i`. */
  lemma BlankingKeepsTokenStartsClear(s: seq<char>, arg: seq<char>, i: nat)
    requires i < |s| && |arg| > 0
    requires forall k :: 0 <= k < |arg| ==> arg[k] != ' '
    requires TokenStartsClear(s, arg, i)
    requires OccursAt(s, arg, i) && AtTokenStart(s, i)
    ensures TokenStartsClear(BlankToken(s, i), arg, i + 1)
  {
    assert s[i] == s[i..i + |arg|][0] == arg[0];
    var t := BlankToken(s, i);
    assert t[i] == ' ';
    forall j: nat | j < i + 1 && OccursAt(t, arg, j)
      ensures !AtTokenStart(t, j)
    {
      assert j + |arg| <= i by {
        assert forall k :: j <= k < j + |arg| ==> t[k] == t[j..j + |arg|][k - j];
      }
      assert s[j..j + |arg|] == t[j..j + |arg|];
      assert OccursAt(s, arg, j);
    }
  }

  /** When the loop ends, the argument occurs nowhere in the line. */
  lemma {:induction false} BlankArgumentRemovesAll(s: seq<char>, arg: seq<char>)
    requires BlankArgument(s, arg).Some?
    ensures forall j :: !OccursAt(BlankArgument(s, arg).value, arg, j)
    decreases NonSpaceCount(s)
  {
    match FindFirst(s, arg, 0)
    case None =>
    case Some(i) =>
      BlankTokenProgress(s, i);
      BlankArgumentRemovesAll(BlankToken(s, i), arg);
  }

  /** Blanking writes spaces only, so it never introduces a NUL. */
  lemma {:induction false} BlankArgumentNoNul(s: seq<char>, arg: seq<char>)
    requires NoNul(s)
    requires BlankArgument(s, arg).Some?
    ensures NoNul(BlankArgument(s, arg).value)
    decreases NonSpaceCount(s)
  {
    match FindFirst(s, arg, 0)
    case None =>
    case Some(i) =>
      BlankTokenProgress(s, i);
      BlankArgumentNoNul(BlankToken(s, i), arg);
  }

  lemma {:induction false} CollapseNoNul(s: seq<char>)
    requires NoNul(s)
    ensures NoNul(CollapseSpaces(s))
    decreases |s|
  {
    if |s| > 0 {
      CollapseNoNul(s[1..]);
    }
  }

  lemma {:induction false} SkipLeadingKeepsWords(s: seq<char>)
    ensures Words(SkipLeadingSpaces(s)) == Words(s)
    decreases |s|
  {
    if |s| > 0 && s[0] == ' ' {
      SkipLeadingKeepsWords(s[1..]);
    }
  }

  lemma {:induction false} ContentsOfPadded(c: seq<char>, n: nat)
    requires NoNul(c)
    ensures Contents(c + Zeros(n)) == c
    decreases |c|
  {
    if |c| == 0 {
      if n > 0 {
        assert (c + Zeros(n))[0] == '\0';
      }
    } else {
      assert (c + Zeros(n))[1..] == c[1..] + Zeros(n);
      ContentsOfPadded(c[1..], n);
    }
  }

  /** What RemoveArgumentFromCommandLine leaves in the buffer when it returns:
      the line no longer holds the argument anywhere before compaction, the
      compacted line has no leading space and no two adjacent spaces, keeps every
      non-space character of the blanked line in order, is no longer than before,
      and the freed tail up to the old terminator is zero-filled. For a non-empty,
      space-free argument the blanked line is the input line with exactly the
      argument's tokens turned into spaces, so the compacted line holds the input's
      words outside those tokens, in order. */
  lemma RemoveArgumentResult(line: seq<char>, arg: seq<char>)
    requires NoNul(line)
    requires RemoveArgumentFromCommandLine(line, arg).Some?
    ensures var blanked := BlankArgument(line, arg).value;
      var out := RemoveArgumentFromCommandLine(line, arg).value;
      var c := Contents(out);
      && (forall j :: !OccursAt(blanked, arg, j))
      && |c| <= |line|
      && c == Compact(blanked)
      && out == c + Zeros(|line| - |c|)
      && (|c| > 0 ==> c[0] != ' ')
      && NoDoubleSpace(c)
      && Words(c) == Words(blanked)
      && (SpaceFree(arg) ==> blanked == WithoutArgumentTokens(line, arg) && Words(c) == Words(WithoutArgumentTokens(line, arg)))
  {
    var blanked := BlankArgument(line, arg).value;
    BlankArgumentRemovesAll(line, arg);
    BlankArgumentNoNul(line, arg);
    var skipped := SkipLeadingSpaces(blanked);
    var c := Compact(blanked);
    assert NoNul(skipped);
    CollapseNoNul(skipped);
    ContentsOfPadded(c, |line| - |c|);
    SkipLeadingKeepsWords(blanked);
  }
}
