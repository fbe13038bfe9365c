/** Signature search: one bulk read of a memory region, then a sliding-window
    comparison of a byte pattern under a mask. Mask character 'x' demands an
    equal byte, '!' a different byte, and any other character accepts any byte. */
module PatternScanner {
  import opened Common
  import opened AddressSpace
  import opened Backends

  datatype Option<T> = None | Some(value: T)

  /** One mask position accepts buffer byte `b` against pattern byte `p`. */
  predicate PositionMatches(maskChar: char, p: byte, b: byte): (r: bool)
    ensures r <==> !((maskChar == 'x' && p != b) || (maskChar == '!' && p == b))
    ensures maskChar != 'x' && maskChar != '!' ==> r
  {
    (maskChar == 'x' ==> b == p) && (maskChar == '!' ==> b != p)
  }

  /** The window of the buffer starting at `i` matches the pattern under the
      mask. Under a mask of only 'x' this is equality of the window with the
      pattern; a mask of only wildcards matches every window in range. */
  predicate MatchesAt(buffer: seq<byte>, pattern: seq<byte>, mask: string, i: int): (r: bool)
    ensures r ==> 0 <= i <= |buffer| - |pattern| && |mask| == |pattern|
    ensures 0 <= i <= |buffer| - |pattern| && |mask| == |pattern| && (forall y :: 0 <= y < |mask| ==> mask[y] == 'x') ==>
      (r <==> buffer[i..i + |pattern|] == pattern)
    ensures 0 <= i <= |buffer| - |pattern| && |mask| == |pattern| && (forall y :: 0 <= y < |mask| ==> mask[y] != 'x' && mask[y] != '!') ==>
      r
  {
    && 0 <= i && i + |pattern| <= |buffer| && |mask| == |pattern|
    && forall y :: 0 <= y < |pattern| ==> PositionMatches(mask[y], pattern[y], buffer[i + y])
  }

  /** FindPatternInternal's answer, as written: the first matching window start
      below `|buffer| - |pattern|`, or 0 when there is none. */
  function Scan(buffer: seq<byte>, pattern: seq<byte>, mask: string): nat
  {
    ScanFrom(buffer, pattern, mask, 0)
  }

  function ScanFrom(buffer: seq<byte>, pattern: seq<byte>, mask: string, i: nat): nat
    decreases |buffer| - i
  {
    if i >= |buffer| - |pattern| then 0
    else if MatchesAt(buffer, pattern, mask, i) then i
    else ScanFrom(buffer, pattern, mask, i + 1)
  }

  /** The search as evidently intended: the first matching window among ALL
      window starts `0 .. |buffer| - |pattern|`, with "none" kept apart from
      offset 0. */
  function FirstMatch(buffer: seq<byte>, pattern: seq<byte>, mask: string): Option<nat>
  {
    FirstMatchFrom(buffer, pattern, mask, 0)
  }

  function FirstMatchFrom(buffer: seq<byte>, pattern: seq<byte>, mask: string, i: nat): Option<nat>
    decreases |buffer| + 1 - i
  {
    if i > |buffer| - |pattern| then None
    else if MatchesAt(buffer, pattern, mask, i) then Some(i)
    else FirstMatchFrom(buffer, pattern, mask, i + 1)
  }

  /** FindPattern: the argument checks come before any memory is read; an
      empty read is a read error; a zero offset means "not found" and any other
      offset is added to the start address. The read is an absolute one. */
  function FindPatternIn(kind: BackendKind, m: Memory, base: IntPtr, startAddress: IntPtr, size: int,
                         pattern: seq<byte>, mask: string): Result<IntPtr>
  {
    if |pattern| == 0 then Err(ArgumentNull("patternBytes"))
    else if |pattern| != |mask| then Err(Argument("Data and mask must be of the same size!"))
    else
      var buffer :- ReadBytesBy(kind, m, base, startAddress, size, false);
      if |buffer| == 0 then Err(ScanRead)
      else
        var offset := Scan(buffer, pattern, mask);
        if offset == 0 then Ok(0) else Ok(Add(startAddress, offset))
  }

  // ---------------------------------------------------------------------------
  // The scanner

  /** FindPatternInternal: the nested loop with its early exit. Every buffer
      index it touches, `i + y`, lies inside the buffer. */
  method FindPatternInternal(buffer: seq<byte>, pattern: seq<byte>, mask: string) returns (r: Result<nat>)
    requires |mask| == |pattern|
    ensures buffer == [] ==> r == Err(ArgumentNull("buffer"))
    ensures buffer != [] ==> r == Ok(Scan(buffer, pattern, mask))
  {
    if |buffer| == 0 {
      return Err(ArgumentNull("buffer"));
    }
    var patternLength := |pattern|;
    var dataLength := |buffer| - patternLength;
    var i := 0;
    while i < dataLength
      invariant 0 <= i
      invariant ScanFrom(buffer, pattern, mask, i) == Scan(buffer, pattern, mask)
    {
      var found := true;
      var y := 0;
      while y < patternLength
        invariant 0 <= y <= patternLength
        invariant found
        invariant forall z :: 0 <= z < y ==> PositionMatches(mask[z], pattern[z], buffer[i + z])
      {
        if (mask[y] == 'x' && pattern[y] != buffer[i + y]) || (mask[y] == '!' && pattern[y] == buffer[i + y]) {
          assert !PositionMatches(mask[y], pattern[y], buffer[i + y]);
          found := false;
          break;
        }
        y := y + 1;
      }
      if found {
        assert MatchesAt(buffer, pattern, mask, i);
        return Ok(i);
      }
      i := i + 1;
    }
    return Ok(0);
  }

  class PatternScanner {
    /** The memory instance the scanner reads from. */
    const memory: Backend

    constructor (memory: Backend)
      ensures this.memory == memory
    {
      this.memory := memory;
    }

    method FindPattern(startAddress: IntPtr, size: int, pattern: seq<byte>, mask: string) returns (r: Result<IntPtr>)
      ensures r == FindPatternIn(memory.Kind(), memory.Space().memory, memory.Native().fastBaseAddress,
                                 startAddress, size, pattern, mask)
    {
      if |pattern| == 0 {
        return Err(ArgumentNull("patternBytes"));
      }
      if |pattern| != |mask| {
        return Err(Argument("Data and mask must be of the same size!"));
      }
      var buffer :- ReadBytes(memory, startAddress, size, false);
      if |buffer| == 0 {
        return Err(ScanRead);
      }
      var scanned := FindPatternInternal(buffer, pattern, mask);
      var ptr := scanned.value;
      if ptr == 0 {
        return Ok(0);
      }
      return Ok(Add(startAddress, ptr));
    }
  }

  // ---------------------------------------------------------------------------
  // Properties of the search

  /** The intended search finds the least matching window start, and finds
      nothing exactly when no window matches. */
  lemma {:induction false} FirstMatchIsLeast(buffer: seq<byte>, pattern: seq<byte>, mask: string, i: nat)
    requires forall j :: 0 <= j < i ==> !MatchesAt(buffer, pattern, mask, j)
    ensures var r := FirstMatchFrom(buffer, pattern, mask, i);
      && (r.Some? ==> MatchesAt(buffer, pattern, mask, r.value) &&
                      forall j :: 0 <= j < r.value ==> !MatchesAt(buffer, pattern, mask, j))
      && (r.None? <==> forall j :: 0 <= j ==> !MatchesAt(buffer, pattern, mask, j))
    decreases |buffer| + 1 - i
  {
    if i > |buffer| - |pattern| {
    } else if !MatchesAt(buffer, pattern, mask, i) {
      FirstMatchIsLeast(buffer, pattern, mask, i + 1);
    }
  }

  /** The search as written is the intended search, except that a match at
      offset 0 and a match only in the last window both come out as 0. */
  lemma {:induction false} ScanIsFirstMatchBelowLastWindow(buffer: seq<byte>, pattern: seq<byte>, mask: string, i: nat)
    ensures ScanFrom(buffer, pattern, mask, i) ==
      match FirstMatchFrom(buffer, pattern, mask, i)
      case None => 0
      case Some(k) => if k < |buffer| - |pattern| then k else 0
    decreases |buffer| + 1 - i
  {
    if i < |buffer| - |pattern| && !MatchesAt(buffer, pattern, mask, i) {
      ScanIsFirstMatchBelowLastWindow(buffer, pattern, mask, i + 1);
    }
  }

  /** A non-zero scan result is the first matching window, at least 1 and below
      `|buffer| - |pattern|`; a zero result means that window 0 matches or that
      no window below `|buffer| - |pattern|` does. */
  lemma ScanResult(buffer: seq<byte>, pattern: seq<byte>, mask: string)
    ensures var r := Scan(buffer, pattern, mask);
      && (r != 0 ==> 1 <= r < |buffer| - |pattern| && MatchesAt(buffer, pattern, mask, r) &&
                     forall j :: 0 <= j < r ==> !MatchesAt(buffer, pattern, mask, j))
      && (r == 0 ==> MatchesAt(buffer, pattern, mask, 0) ||
                     forall j :: 0 <= j < |buffer| - |pattern| ==> !MatchesAt(buffer, pattern, mask, j))
  {
    ScanIsFirstMatchBelowLastWindow(buffer, pattern, mask, 0);
    FirstMatchIsLeast(buffer, pattern, mask, 0);
  }

  /** A pattern at least as long as the buffer is never found. */
  lemma LongPatternNotFound(buffer: seq<byte>, pattern: seq<byte>, mask: string)
    requires |pattern| >= |buffer|
    ensures Scan(buffer, pattern, mask) == 0
  {
  }

  /** The last window is never tried: `[0x02]` at the end of `[0x01, 0x02]`. */
  lemma LastWindowMissedExample()
    ensures Scan([0x01, 0x02], [0x02], "x") == 0
    ensures FirstMatch([0x01, 0x02], [0x02], "x") == Some(1)
  {
    assert !MatchesAt([0x01, 0x02], [0x02], "x", 0) by {
      assert !PositionMatches("x"[0], [0x02][0], [0x01, 0x02][0]);
    }
    assert MatchesAt([0x01, 0x02], [0x02], "x", 1);
  }

  /** A match at offset 0 is reported as not found: `[0x07]` at the start of
      `[0x07, 0x08, 0x09]`. */
  lemma OffsetZeroMissedExample()
    ensures Scan([0x07, 0x08, 0x09], [0x07], "x") == 0
    ensures FirstMatch([0x07, 0x08, 0x09], [0x07], "x") == Some(0)
  {
    assert MatchesAt([0x07, 0x08, 0x09], [0x07], "x", 0);
  }

  /** `[0x20, 0x30]` under "xx" and `[0x20, 0xFF]` under "x!" both match
      `[0x10, 0x20, 0x30, 0x40]` first at offset 1. */
  lemma MaskExamples()
    ensures Scan([0x10, 0x20, 0x30, 0x40], [0x20, 0x30], "xx") == 1
    ensures Scan([0x10, 0x20, 0x30, 0x40], [0x20, 0xFF], "x!") == 1
  {
    var buffer: seq<byte> := [0x10, 0x20, 0x30, 0x40];
    assert !MatchesAt(buffer, [0x20, 0x30], "xx", 0) by {
      assert !PositionMatches("xx"[0], [0x20, 0x30][0], buffer[0]);
    }
    assert MatchesAt(buffer, [0x20, 0x30], "xx", 1);
    assert !MatchesAt(buffer, [0x20, 0xFF], "x!", 0) by {
      assert !PositionMatches("x!"[0], [0x20, 0xFF][0], buffer[0]);
    }
    assert MatchesAt(buffer, [0x20, 0xFF], "x!", 1);
  }

  // ---------------------------------------------------------------------------
  // Properties of FindPattern

  /** An empty pattern and a pattern/mask length mismatch are reported before
      memory is read, whatever the memory holds. */
  lemma ArgumentChecksComeFirst(kind: BackendKind, m: Memory, base: IntPtr, startAddress: IntPtr, size: int,
                                pattern: seq<byte>, mask: string)
    ensures pattern == [] ==> FindPatternIn(kind, m, base, startAddress, size, pattern, mask) == Err(ArgumentNull("patternBytes"))
    ensures pattern != [] && |pattern| != |mask| ==>
      FindPatternIn(kind, m, base, startAddress, size, pattern, mask) == Err(Argument("Data and mask must be of the same size!"))
  {
  }

  /** A failed bulk read is passed on, and an empty one is a read error. */
  lemma ReadFailures(kind: BackendKind, m: Memory, base: IntPtr, startAddress: IntPtr, size: int,
                     pattern: seq<byte>, mask: string)
    requires pattern != [] && |pattern| == |mask|
    ensures ReadBytesBy(kind, m, base, startAddress, size, false).Err? ==>
      FindPatternIn(kind, m, base, startAddress, size, pattern, mask) == Err(ReadBytesBy(kind, m, base, startAddress, size, false).error)
    ensures ReadBytesBy(kind, m, base, startAddress, size, false) == Ok([]) ==>
      FindPatternIn(kind, m, base, startAddress, size, pattern, mask) == Err(ScanRead)
  {
  }

  /** Given the bytes read, FindPattern returns `startAddress + i` for the first
      matching window `i` when `1 <= i < |buffer| - |pattern|`, and 0 otherwise. */
  lemma FindPatternAnswer(kind: BackendKind, m: Memory, base: IntPtr, startAddress: IntPtr, size: int,
                          pattern: seq<byte>, mask: string, buffer: seq<byte>)
    requires pattern != [] && |pattern| == |mask|
    requires ReadBytesBy(kind, m, base, startAddress, size, false) == Ok(buffer) && buffer != []
    ensures FindPatternIn(kind, m, base, startAddress, size, pattern, mask) ==
      match FirstMatch(buffer, pattern, mask)
      case Some(i) => if 1 <= i < |buffer| - |pattern| then Ok(Add(startAddress, i)) else Ok(0)
      case None => Ok(0)
  {
    ScanIsFirstMatchBelowLastWindow(buffer, pattern, mask, 0);
  }

  /** In this process's memory an empty region reads as an empty buffer, which
      the scanner reports as a read error. */
  lemma LocalEmptyRegion(m: Memory, base: IntPtr, startAddress: IntPtr, pattern: seq<byte>, mask: string)
    requires pattern != [] && |pattern| == |mask|
    ensures FindPatternIn(LocalKind, m, base, startAddress, 0, pattern, mask) == Err(ScanRead)
  {
  }
}
