/** String helpers of AptioMemoryFix over UCS-2 text: case folding, substring
    search, prefix test, narrowing to ASCII, and flattening a file device path
    (section 10.3.5.4 of the UEFI Specification) into text. A C string is modelled
    by its characters before the terminating NUL. */
module Utils {
  import opened Types

  /** A CHAR16 code unit. */
  type Char16 = c: nat | c < 0x1_0000

  /** A CHAR8 code unit. */
  type Char8 = c: nat | c < 0x100

  /** No NUL inside: the characters of a C string before its terminator. */
  predicate NulFree(s: seq<Char16>) {
    forall i :: 0 <= i < |s| ==> s[i] != 0
  }

  /** The character the C code reads at `i`: the terminator past the end. */
  function At(s: seq<Char16>, i: nat): Char16 {
    if i < |s| then s[i] else 0
  }

  predicate IsLowerAscii(c: Char16) {
    0x61 <= c <= 0x7A
  }

  /** ToUpperChar as written: the character is narrowed to a signed CHAR8, so a
      code between 0x80 and 0xFF comes back sign-extended to 0xFF80..0xFFFF. */
  function ToUpperCharAsWritten(c: Char16): (r: Char16)
    ensures c > 0xFF ==> r == c
    ensures 0x80 <= c <= 0xFF ==> r == c + 0xFF00 && r > 0xFF
  {
    if c > 0xFF then c
    else if IsLowerAscii(c) then c - 0x20
    else if c >= 0x80 then c + 0xFF00
    else c
  }

  /** As written, a Latin-1 character and the code 0xFF00 above it fold to the
      same value, so the case-insensitive helpers take one for the other. */
  lemma ToUpperCharAsWrittenConflates()
    ensures ToUpperCharAsWritten(0xE9) == ToUpperCharAsWritten(0xFFE9)
    ensures forall c: Char16 :: 0x80 <= c <= 0xFF ==> ToUpperCharAsWritten(c) == ToUpperCharAsWritten(c + 0xFF00)
  {
  }

  /** ToUpperChar as intended: only 'a'..'z' change; every other code, including
      0x80..0xFF, is returned as it is. */
  function ToUpperChar(c: Char16): (r: Char16)
    ensures IsLowerAscii(c) ==> r == c - 0x20
    ensures !IsLowerAscii(c) ==> r == c
  {
    if IsLowerAscii(c) then c - 0x20 else c
  }

  /** Two characters fold together exactly when they are equal or are the two
      cases of one ASCII letter; NUL folds only with itself. */
  lemma ToUpperCharFoldsOnlyLetters(a: Char16, b: Char16)
    ensures ToUpperChar(a) == ToUpperChar(b) <==>
      a == b || (IsLowerAscii(a) && b == a - 0x20) || (IsLowerAscii(b) && a == b - 0x20)
    ensures ToUpperChar(a) == 0 <==> a == 0
  {
  }

  predicate SameIgnoringCase(a: Char16, b: Char16) {
    ToUpperChar(a) == ToUpperChar(b)
  }

  /** `search` occurs at `i` of `s`, ignoring ASCII case. */
  predicate MatchAt(s: seq<Char16>, search: seq<Char16>, i: nat) {
    && i + |search| <= |s|
    && forall j :: 0 <= j < |search| ==> SameIgnoringCase(s[i + j], search[j])
  }

  /** StrStriBasic: position of the first case-insensitive occurrence (`None` for
      NULL); an empty search string matches at the start. */
  method StrStriBasic(s: seq<Char16>, search: seq<Char16>) returns (r: Option<nat>)
    requires NulFree(s) && NulFree(search)
    ensures |search| == 0 ==> r == Some(0)
    ensures r.Some? ==> MatchAt(s, search, r.value) && forall i :: 0 <= i < r.value ==> !MatchAt(s, search, i)
    ensures r.None? ==> forall i: nat :: !MatchAt(s, search, i)
  {
    if At(search, 0) == 0 {
      return Some(0);
    }
    var start := 0;
    while At(s, start) != 0
      invariant start <= |s|
      invariant forall i :: 0 <= i < start ==> !MatchAt(s, search, i)
      decreases |s| - start
    {
      var k := 0;
      while ToUpperChar(At(s, start + k)) == ToUpperChar(At(search, k)) && At(s, start + k) != 0
        invariant start + k <= |s| && k <= |search|
        invariant forall j :: 0 <= j < k ==> SameIgnoringCase(s[start + j], search[j])
        decreases |s| - start - k
      {
        ToUpperCharFoldsOnlyLetters(At(s, start + k), At(search, k));
        k := k + 1;
      }
      ToUpperCharFoldsOnlyLetters(At(s, start + k), At(search, k));
      if At(search, k) == 0 {
        return Some(start);
      }
      if At(s, start + k) == 0 {
        return None;
      }
      start := start + 1;
    }
    return None;
  }

  /** Both strings present and `prefix` begins `s`, ignoring ASCII case. */
  predicate StartsWithIgnoringCase(s: seq<Char16>, prefix: seq<Char16>) {
    && |prefix| <= |s|
    && forall j :: 0 <= j < |prefix| ==> SameIgnoringCase(s[j], prefix[j])
  }

  /** StriStartsWithBasic: FALSE for a NULL argument; two empty strings start with
      each other, but an empty prefix of a non-empty string does not count;
      otherwise a case-insensitive prefix test. */
  method StriStartsWithBasic(s1: Option<seq<Char16>>, s2: Option<seq<Char16>>) returns (r: bool)
    requires s1.Some? ==> NulFree(s1.value)
    requires s2.Some? ==> NulFree(s2.value)
    ensures r <==>
      && s1.Some? && s2.Some?
      && ((|s1.value| == 0 && |s2.value| == 0)
          || (|s2.value| > 0 && StartsWithIgnoringCase(s1.value, s2.value)))
  {
    if s1.None? || s2.None? {
      return false;
    }
    var a := s1.value;
    var b := s2.value;
    if At(a, 0) == 0 && At(b, 0) == 0 {
      return true;
    }
    if At(a, 0) == 0 || At(b, 0) == 0 {
      return false;
    }
    var k := 0;
    var c1 := ToUpperChar(At(a, 0));
    var c2 := ToUpperChar(At(b, 0));
    while c1 != 0 && c2 != 0 && c1 == c2
      invariant k <= |a| && k <= |b|
      invariant c1 == ToUpperChar(At(a, k)) && c2 == ToUpperChar(At(b, k))
      invariant forall j :: 0 <= j < k ==> SameIgnoringCase(a[j], b[j])
      decreases |a| - k
    {
      ToUpperCharFoldsOnlyLetters(At(a, k), 0);
      ToUpperCharFoldsOnlyLetters(At(b, k), 0);
      k := k + 1;
      c1 := ToUpperChar(At(a, k));
      c2 := ToUpperChar(At(b, k));
    }
    ToUpperCharFoldsOnlyLetters(At(a, k), 0);
    ToUpperCharFoldsOnlyLetters(At(b, k), 0);
    ToUpperCharFoldsOnlyLetters(At(a, k), At(b, k));
    r := (c1 == 0 && c2 == 0) || (c1 != 0 && c2 == 0);
  }

  // ---------------------------------------------------------------------------
  // UCS-2 to ASCII
  // ---------------------------------------------------------------------------

  function Min(a: nat, b: nat): nat {
    if a <= b then a else b
  }

  /** The low byte of every character. */
  function LowBytes(s: seq<Char16>): (r: seq<Char8>)
    ensures |r| == |s|
    ensures forall i :: 0 <= i < |s| ==> r[i] == s[i] % 0x100
  {
    seq(|s|, i requires 0 <= i < |s| => s[i] % 0x100)
  }

  /** ConvertUnicodeStrToAsciiStr: `None` (NULL) when either buffer is NULL or the
      size is 0; otherwise the low bytes of at most size-1 characters, always
      followed by a NUL. */
  function ConvertUnicodeStrToAsciiStr(source: Option<seq<Char16>>, destinationPresent: bool, destinationSize: nat): (r: Option<seq<Char8>>)
    ensures r.None? <==> !destinationPresent || source.None? || destinationSize == 0
    ensures r.Some? ==>
      && |r.value| == Min(|source.value|, destinationSize - 1) + 1
      && |r.value| <= destinationSize
      && r.value[|r.value| - 1] == 0
      && r.value[..|r.value| - 1] == LowBytes(source.value[..|r.value| - 1])
  {
    if !destinationPresent || source.None? || destinationSize == 0 then None
    else
      var n := Min(|source.value|, destinationSize - 1);
      Some(LowBytes(source.value[..n]) + [0])
  }

  /** Widening the narrowed text back gives the source when it is ASCII and fits. */
  lemma AsciiRoundTrip(source: seq<Char16>, destinationSize: nat)
    requires NulFree(source) && |source| < destinationSize
    requires forall i :: 0 <= i < |source| ==> source[i] < 0x80
    ensures var r := ConvertUnicodeStrToAsciiStr(Some(source), true, destinationSize).value;
      |r| == |source| + 1 && forall i :: 0 <= i < |source| ==> r[i] == source[i]
  {
  }

  // ---------------------------------------------------------------------------
  // File device path to text
  // ---------------------------------------------------------------------------

  /** Device path node types and the file-path subtype (section 10.3 of the UEFI
      Specification). */
  const EndDevicePathType: nat := 0x7F
  const MediaDevicePath: nat := 0x04
  const MediaFilePathSubtype: nat := 0x04
  const Backslash: Char16 := 0x5C

  /** Capacity of the local FilePathText buffer, in characters. */
  const PathTextCapacity: nat := 256

  /** At most this many nodes are looked at. */
  const PathNodeBudget: nat := 4

  /** A node: its type, subtype, byte length and, for a file-path node, its name. */
  datatype DevicePathNode = DevicePathNode(nodeType: nat, subType: nat, length: nat, pathName: seq<Char16>)

  predicate IsFilePath(n: DevicePathNode) {
    n.nodeType == MediaDevicePath && n.subType == MediaFilePathSubtype
  }

  /** A file-path node as firmware builds it: a non-empty NUL-free name whose
      length field covers the 4-byte header and the name with its terminator. */
  predicate WellFormedFileNode(n: DevicePathNode) {
    IsFilePath(n) ==> |n.pathName| > 0 && NulFree(n.pathName) && n.length == 4 + 2 * (|n.pathName| + 1)
  }

  /** The walk stays inside the path: an end node or the budget comes first. */
  predicate WalkBounded(nodes: seq<DevicePathNode>, budget: nat)
    decreases budget
  {
    budget == 0
    || (|nodes| > 0 && WellFormedFileNode(nodes[0])
        && (nodes[0].nodeType == EndDevicePathType || WalkBounded(nodes[1..], budget - 1)))
  }

  /** The text with a node's name appended: a '\' goes between unless the text is
      empty or already ends with one. */
  function Joined(text: seq<Char16>, name: seq<Char16>): (r: seq<Char16>)
    ensures |r| <= |text| + 1 + |name|
    ensures NulFree(text) && NulFree(name) ==> NulFree(r)
    ensures text <= r
  {
    if |text| > 0 && text[|text| - 1] != Backslash then text + [Backslash] + name else text + name
  }

  /** The fit test as written: StrSize of the text so far (in bytes, 0 before the
      first name) plus the node's character count must stay below 256. */
  predicate FitsAsWritten(text: seq<Char16>, n: DevicePathNode) {
    var sizeAll := if |text| == 0 then 0 else 2 * (|text| + 1);
    var size := (n.length - 4) / 2;
    sizeAll + size < PathTextCapacity
  }

  /** The fit test as intended: both sizes counted in characters. */
  predicate Fits(text: seq<Char16>, n: DevicePathNode) {
    var sizeAll := if |text| == 0 then 0 else |text| + 1;
    var size := (n.length - 4) / 2;
    sizeAll + size < PathTextCapacity
  }

  /** The walk as written only ever appends, and even its looser fit test keeps
      the text and its NUL inside the buffer. */
  function CollectAsWritten(nodes: seq<DevicePathNode>, budget: nat, text: seq<Char16>): (r: seq<Char16>)
    requires WalkBounded(nodes, budget)
    ensures text <= r
    ensures NulFree(text) ==> NulFree(r)
    ensures |text| + 1 <= PathTextCapacity ==> |r| + 1 <= PathTextCapacity
    decreases budget
  {
    if budget == 0 || nodes[0].nodeType == EndDevicePathType then text
    else
      var n := nodes[0];
      var text' := if IsFilePath(n) && FitsAsWritten(text, n) then Joined(text, n.pathName) else text;
      CollectAsWritten(nodes[1..], budget - 1, text')
  }

  /** FileDevicePathToStr as written; `None` (NULL) when no name was taken or the
      copy could not be allocated. `hasBuffer` is whether AllocatePool returned a
      buffer. */
  function FileDevicePathToStrAsWritten(nodes: seq<DevicePathNode>, hasBuffer: bool): (r: Option<seq<Char16>>)
    requires WalkBounded(nodes, PathNodeBudget)
    ensures !hasBuffer ==> r.None?
    ensures r.Some? ==> 0 < |r.value| && |r.value| + 1 <= PathTextCapacity && NulFree(r.value)
  {
    var text := CollectAsWritten(nodes, PathNodeBudget, []);
    if |text| > 0 && hasBuffer then Some(text) else None
  }

  /** As written, a second name that would fit the buffer is dropped: 100
      characters plus a separator, 60 more and the NUL need 162 of 256, but the
      test adds 202 bytes to 61 characters. */
  lemma FileDevicePathToStrAsWrittenDropsFittingNode()
    ensures var first := DevicePathNode(MediaDevicePath, MediaFilePathSubtype, 4 + 2 * 101, seq(100, _ => 0x61));
      var second := DevicePathNode(MediaDevicePath, MediaFilePathSubtype, 4 + 2 * 61, seq(60, _ => 0x62));
      var end := DevicePathNode(EndDevicePathType, 0xFF, 4, []);
      var nodes := [first, second, end];
      && WalkBounded(nodes, PathNodeBudget)
      && FileDevicePathToStrAsWritten(nodes, true) == Some(first.pathName)
      && |first.pathName| + 1 + |second.pathName| + 1 <= PathTextCapacity
  {
    var first := DevicePathNode(MediaDevicePath, MediaFilePathSubtype, 4 + 2 * 101, seq(100, _ => 0x61));
    var second := DevicePathNode(MediaDevicePath, MediaFilePathSubtype, 4 + 2 * 61, seq(60, _ => 0x62));
    var end := DevicePathNode(EndDevicePathType, 0xFF, 4, []);
    var nodes := [first, second, end];
    assert nodes[1..] == [second, end];
    assert nodes[1..][1..] == [end];
    assert WalkBounded(nodes, PathNodeBudget);
    assert Joined([], first.pathName) == first.pathName;
    assert !FitsAsWritten(first.pathName, second);
  }

  function Collect(nodes: seq<DevicePathNode>, budget: nat, text: seq<Char16>): (r: seq<Char16>)
    requires WalkBounded(nodes, budget)
    requires |text| + 1 <= PathTextCapacity && NulFree(text)
    ensures |r| + 1 <= PathTextCapacity && NulFree(r)
    decreases budget
  {
    if budget == 0 || nodes[0].nodeType == EndDevicePathType then text
    else
      var n := nodes[0];
      var text' := if IsFilePath(n) && Fits(text, n) then Joined(text, n.pathName) else text;
      Collect(nodes[1..], budget - 1, text')
  }

  /** FileDevicePathToStr: the file-path names among the first four nodes before
      the end node, joined by '\'; a name that would not fit the 256-character
      buffer is skipped; `None` (NULL) when the text is empty or AllocatePool
      returns no buffer for the copy (`hasBuffer` false). */
  function FileDevicePathToStr(nodes: seq<DevicePathNode>, hasBuffer: bool): (r: Option<seq<Char16>>)
    requires WalkBounded(nodes, PathNodeBudget)
    ensures !hasBuffer ==> r.None?
    ensures r.Some? ==> 0 < |r.value| && |r.value| + 1 <= PathTextCapacity && NulFree(r.value)
  {
    var text := Collect(nodes, PathNodeBudget, []);
    if |text| > 0 && hasBuffer then Some(text) else None
  }

  /** Every name that fits is taken: a single file-path node whose name leaves room
      for its terminator comes out whole. */
  lemma FileDevicePathToStrSingleName(node: DevicePathNode, end: DevicePathNode)
    requires IsFilePath(node) && WellFormedFileNode(node) && end.nodeType == EndDevicePathType
    requires |node.pathName| + 1 < PathTextCapacity
    ensures WalkBounded([node, end], PathNodeBudget)
    ensures FileDevicePathToStr([node, end], true) == Some(node.pathName)
  {
    assert [node, end][1..] == [end];
    assert Joined([], node.pathName) == node.pathName;
  }

  /** The intended test keeps the second name of the example the as-written test
      drops. */
  lemma FileDevicePathToStrKeepsFittingNode()
    ensures var first := DevicePathNode(MediaDevicePath, MediaFilePathSubtype, 4 + 2 * 101, seq(100, _ => 0x61));
      var second := DevicePathNode(MediaDevicePath, MediaFilePathSubtype, 4 + 2 * 61, seq(60, _ => 0x62));
      var end := DevicePathNode(EndDevicePathType, 0xFF, 4, []);
      var nodes := [first, second, end];
      WalkBounded(nodes, PathNodeBudget)
      && FileDevicePathToStr(nodes, true) == Some(first.pathName + [Backslash] + second.pathName)
  {
    var first := DevicePathNode(MediaDevicePath, MediaFilePathSubtype, 4 + 2 * 101, seq(100, _ => 0x61));
    var second := DevicePathNode(MediaDevicePath, MediaFilePathSubtype, 4 + 2 * 61, seq(60, _ => 0x62));
    var end := DevicePathNode(EndDevicePathType, 0xFF, 4, []);
    var nodes := [first, second, end];
    assert nodes[1..] == [second, end];
    assert nodes[1..][1..] == [end];
    assert WalkBounded(nodes, PathNodeBudget);
    assert Joined([], first.pathName) == first.pathName;
    assert first.pathName[99] == 0x61;
    assert Fits(first.pathName, second);
  }

  // ---------------------------------------------------------------------------
  // Reference definition of the flattened path

  /** The nodes the walk looks at: those before the end node, at most `budget`. */
  function Visited(nodes: seq<DevicePathNode>, budget: nat): (r: seq<DevicePathNode>)
    requires WalkBounded(nodes, budget)
    ensures |r| <= budget
    ensures forall j :: 0 <= j < |r| ==> WellFormedFileNode(r[j]) && r[j].nodeType != EndDevicePathType
    decreases budget
  {
    if budget == 0 || nodes[0].nodeType == EndDevicePathType then []
    else [nodes[0]] + Visited(nodes[1..], budget - 1)
  }

  /** The names of the file-path nodes, in order. */
  function FileNames(nodes: seq<DevicePathNode>): (r: seq<seq<Char16>>)
    requires forall j :: 0 <= j < |nodes| ==> WellFormedFileNode(nodes[j])
    ensures |r| <= |nodes|
    ensures forall j :: 0 <= j < |r| ==> NulFree(r[j]) && |r[j]| > 0
  {
    if |nodes| == 0 then []
    else
      assert WellFormedFileNode(nodes[0]);
      (if IsFilePath(nodes[0]) then [nodes[0].pathName] else []) + FileNames(nodes[1..])
  }

  /** Names joined by '\' in order, with no separator doubled after a name that
      already ends in one. */
  function JoinAll(names: seq<seq<Char16>>): (r: seq<Char16>)
    ensures (forall j :: 0 <= j < |names| ==> NulFree(names[j])) ==> NulFree(r)
  {
    if |names| == 0 then [] else Joined(JoinAll(names[..|names| - 1]), names[|names| - 1])
  }

  /** A name of this many characters, and its NUL, fit after the text in the
      256-character buffer. */
  predicate NameFits(text: seq<Char16>, name: seq<Char16>) {
    (if |text| == 0 then 0 else |text| + 1) + |name| + 1 < PathTextCapacity
  }

  /** The names that are taken: each one that fits after the join of those taken
      before it. */
  function Kept(names: seq<seq<Char16>>): (r: seq<seq<Char16>>)
    requires forall j :: 0 <= j < |names| ==> NulFree(names[j])
    ensures |r| <= |names|
    ensures forall j :: 0 <= j < |r| ==> r[j] in names
    ensures forall j :: 0 <= j < |r| ==> NulFree(r[j])
    ensures |JoinAll(r)| + 1 <= PathTextCapacity
  {
    if |names| == 0 then []
    else
      var k := Kept(names[..|names| - 1]);
      var name := names[|names| - 1];
      if NameFits(JoinAll(k), name) then
        assert (k + [name])[..|k|] == k;
        k + [name]
      else k
  }

  /** FileDevicePathToStr yields exactly the '\'-join, in order, of the file-path
      names among the visited nodes that fit after the names taken before them,
      provided the copy is allocated. */
  lemma FileDevicePathToStrJoinsFittingNames(nodes: seq<DevicePathNode>, hasBuffer: bool)
    requires WalkBounded(nodes, PathNodeBudget)
    ensures var text := JoinAll(Kept(FileNames(Visited(nodes, PathNodeBudget))));
      FileDevicePathToStr(nodes, hasBuffer) == if |text| > 0 && hasBuffer then Some(text) else None
  {
    var names := FileNames(Visited(nodes, PathNodeBudget));
    CollectFoldsNames(nodes, PathNodeBudget, []);
    FoldFittingKeeps([], names);
    assert [] + names == names;
  }

  /** The names visited one by one, each joined on when it fits. */
  function FoldFitting(text: seq<Char16>, names: seq<seq<Char16>>): seq<Char16>
    decreases |names|
  {
    if |names| == 0 then text
    else FoldFitting(if NameFits(text, names[0]) then Joined(text, names[0]) else text, names[1..])
  }

  /** The walk folds the visited file-path names into the text. */
  lemma {:induction false} CollectFoldsNames(nodes: seq<DevicePathNode>, budget: nat, text: seq<Char16>)
    requires WalkBounded(nodes, budget)
    requires |text| + 1 <= PathTextCapacity && NulFree(text)
    ensures Collect(nodes, budget, text) == FoldFitting(text, FileNames(Visited(nodes, budget)))
    decreases budget
  {
    if budget == 0 || nodes[0].nodeType == EndDevicePathType {
      assert Visited(nodes, budget) == [];
    } else {
      var n := nodes[0];
      var tail := Visited(nodes[1..], budget - 1);
      var rest := Visited(nodes, budget);
      assert rest == [n] + tail;
      assert rest[1..] == tail;
      var text' := if IsFilePath(n) && Fits(text, n) then Joined(text, n.pathName) else text;
      assert Collect(nodes, budget, text) == Collect(nodes[1..], budget - 1, text');
      if IsFilePath(n) {
        assert WellFormedFileNode(n);
        FitsCountsName(text, n);
        var names := FileNames(rest);
        assert names == [n.pathName] + FileNames(tail);
        assert names[0] == n.pathName && names[1..] == FileNames(tail);
      } else {
        assert FileNames(rest) == FileNames(tail);
      }
      CollectFoldsNames(nodes[1..], budget - 1, text');
    }
  }

  /** Folding further names into the join of the names kept so far gives the join
      of the names kept from the whole list. */
  lemma {:induction false} FoldFittingKeeps(before: seq<seq<Char16>>, names: seq<seq<Char16>>)
    requires forall j :: 0 <= j < |before| ==> NulFree(before[j])
    requires forall j :: 0 <= j < |names| ==> NulFree(names[j])
    ensures FoldFitting(JoinAll(Kept(before)), names) == JoinAll(Kept(before + names))
    decreases |names|
  {
    if |names| == 0 {
      assert before + names == before;
    } else {
      KeptStep(before, names[0]);
      var before' := before + [names[0]];
      assert before + names == before' + names[1..];
      FoldFittingKeeps(before', names[1..]);
    }
  }

  /** For a well-formed file-path node the length field's fit test is the test on
      the name's own length. */
  lemma FitsCountsName(text: seq<Char16>, n: DevicePathNode)
    requires IsFilePath(n) && WellFormedFileNode(n)
    ensures Fits(text, n) == NameFits(text, n.pathName)
  {
    assert (n.length - 4) / 2 == |n.pathName| + 1;
  }

  /** Taking one more name: it is joined on exactly when it fits. */
  lemma KeptStep(before: seq<seq<Char16>>, name: seq<Char16>)
    requires forall j :: 0 <= j < |before| ==> NulFree(before[j])
    requires NulFree(name)
    ensures var text := JoinAll(Kept(before));
      forall j :: 0 <= j < |before + [name]| ==> NulFree((before + [name])[j])
    ensures var text := JoinAll(Kept(before));
      JoinAll(Kept(before + [name])) == if NameFits(text, name) then Joined(text, name) else text
  {
    var b := before + [name];
    assert b[..|before|] == before;
    var k := Kept(before);
    if NameFits(JoinAll(k), name) {
      assert Kept(b) == k + [name];
      assert (k + [name])[..|k|] == k;
    }
  }
}
