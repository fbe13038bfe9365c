/** NativeMemory as callers see it: one of the two backends, chosen at
    construction. ReadString and WriteString are written once here, against
    whichever ReadBytes and WriteBytes the backend overrides them with. */
module Backends {
  import opened Common
  import opened AddressSpace
  import opened NativeMemory
  import E = ExternalProcessMemory
  import L = LocalProcessMemory

  /** Which override of the abstract members runs. */
  datatype BackendKind = ExternalKind | LocalKind

  /** The abstract ReadBytes, resolved to the override of `kind`. */
  function ReadBytesBy(kind: BackendKind, m: Memory, base: IntPtr, address: IntPtr, count: int, isRelative: bool): (r: Result<seq<byte>>)
    ensures r.Ok? ==> |r.value| == count
  {
    match kind
    case ExternalKind => E.ReadBytesIn(m, base, address, count, isRelative)
    case LocalKind => L.ReadBytesIn(m, base, address, count, isRelative)
  }

  /** The abstract WriteBytes, resolved to the override of `kind`. */
  function WriteBytesBy(kind: BackendKind, m: Memory, base: IntPtr, address: IntPtr, bytes: seq<byte>, isRelative: bool): WriteEffect
  {
    match kind
    case ExternalKind => E.WriteBytesIn(m, address, bytes)
    case LocalKind => L.WriteBytesIn(m, base, address, bytes, isRelative)
  }

  /** ReadString: a zero address is rejected; otherwise `maximumLength` bytes
      are read and decoded, and the text is cut at the first NUL. */
  function ReadStringIn(kind: BackendKind, m: Memory, base: IntPtr, address: IntPtr, maximumLength: int, isRelative: bool): Result<string>
  {
    if address == 0 then Err(Argument("address"))
    else
      var buffer :- ReadBytesBy(kind, m, base, address, maximumLength, isRelative);
      Ok(TextOf(buffer))
  }

  /** WriteString: a zero address is rejected; otherwise the NUL-terminated
      encoding of the value is written with WriteBytes. */
  function WriteStringIn(kind: BackendKind, m: Memory, base: IntPtr, address: IntPtr, value: string, isRelative: bool): WriteEffect
  {
    if address == 0 then WriteEffect(Fail(Argument("address")), m)
    else
      match BytesToWrite(value)
      case Err(e) => WriteEffect(Fail(e), m)
      case Ok(bytes) => WriteBytesBy(kind, m, base, address, bytes, isRelative)
  }

  /** A NativeMemory instance. */
  datatype Backend = External(ext: E.ExternalProcessMemory) | Local(loc: L.LocalProcessMemory)
  {
    function Kind(): BackendKind
    {
      if External? then ExternalKind else LocalKind
    }

    function Space(): AddressSpace
    {
      if External? then ext.space else loc.space
    }

    function Native(): NativeMemory
    {
      if External? then ext.native else loc.native
    }
  }

  method ReadBytes(b: Backend, address: IntPtr, count: int, isRelative: bool) returns (r: Result<seq<byte>>)
    ensures r == ReadBytesBy(b.Kind(), b.Space().memory, b.Native().fastBaseAddress, address, count, isRelative)
  {
    match b
    case External(e) => r := e.ReadBytes(address, count, isRelative);
    case Local(l) => r := l.ReadBytes(address, count, isRelative);
  }

  method WriteBytes(b: Backend, address: IntPtr, bytes: seq<byte>, isRelative: bool) returns (r: Outcome)
    modifies b.Space()
    ensures WriteEffect(r, b.Space().memory)
         == WriteBytesBy(b.Kind(), old(b.Space().memory), b.Native().fastBaseAddress, address, bytes, isRelative)
  {
    match b
    case External(e) => r := e.WriteBytes(address, bytes, isRelative);
    case Local(l) => r := l.WriteBytes(address, bytes, isRelative);
  }

  /** ReadString; a C# caller that gives no `maximumLength` passes 512. */
  method ReadString(b: Backend, address: IntPtr, maximumLength: int, isRelative: bool) returns (r: Result<string>)
    ensures r == ReadStringIn(b.Kind(), b.Space().memory, b.Native().fastBaseAddress, address, maximumLength, isRelative)
  {
    if address == 0 {
      return Err(Argument("address"));
    }
    var buffer :- ReadBytes(b, address, maximumLength, isRelative);
    return Ok(TextOf(buffer));
  }

  method WriteString(b: Backend, address: IntPtr, value: string, isRelative: bool) returns (r: Outcome)
    modifies b.Space()
    ensures WriteEffect(r, b.Space().memory)
         == WriteStringIn(b.Kind(), old(b.Space().memory), b.Native().fastBaseAddress, address, value, isRelative)
  {
    if address == 0 {
      return Fail(Argument("address"));
    }
    if value == [] {
      return Fail(IndexOutOfRange);
    }
    var terminated := value;
    if value[|value| - 1] != Nul {
      terminated := value + [Nul];
    }
    r := WriteBytes(b, address, Encode(terminated), isRelative);
  }

  // ---------------------------------------------------------------------------
  // Properties

  /** ReadString reads exactly `maximumLength` bytes and returns the text
      before the first NUL; the result never holds a NUL. */
  lemma ReadStringOutcome(kind: BackendKind, m: Memory, base: IntPtr, address: IntPtr, maximumLength: int, isRelative: bool)
    ensures var r := ReadStringIn(kind, m, base, address, maximumLength, isRelative);
      && (address == 0 ==> r == Err(Argument("address")))
      && (address != 0 ==> (r.Ok? <==> ReadBytesBy(kind, m, base, address, maximumLength, isRelative).Ok?))
      && (r.Ok? ==> Nul !in r.value && |r.value| <= maximumLength)
      && (r.Ok? ==> r.value <= Decode(ReadBytesBy(kind, m, base, address, maximumLength, isRelative).value))
  {
  }

  /** WriteString writes the encoding of the value with exactly one NUL added
      unless it already ends in one; an empty value fails before anything is
      written. */
  lemma WriteStringBytes(kind: BackendKind, m: Memory, base: IntPtr, address: IntPtr, value: string, isRelative: bool)
    requires address != 0
    ensures value == [] ==> WriteStringIn(kind, m, base, address, value, isRelative) == WriteEffect(Fail(IndexOutOfRange), m)
    ensures value != [] && value[|value| - 1] != Nul ==>
      WriteStringIn(kind, m, base, address, value, isRelative) == WriteBytesBy(kind, m, base, address, Encode(value + [Nul]), isRelative)
    ensures value != [] && value[|value| - 1] == Nul ==>
      WriteStringIn(kind, m, base, address, value, isRelative) == WriteBytesBy(kind, m, base, address, Encode(value), isRelative)
  {
  }

  /** A string without NULs, written and then read back with a larger maximum
      length, is the same string. The out-of-process write translates no
      address, so there the round trip is stated for absolute addresses. */
  lemma StringRoundTrip(kind: BackendKind, m: Memory, base: IntPtr, address: IntPtr, s: string, maximumLength: int, isRelative: bool)
    requires s != [] && Nul !in s && Representable(s) && |s| + 1 < TwoTo31
    requires address != 0 && |s| < maximumLength
    requires kind == ExternalKind ==> !isRelative && m.Readable(Loc(address, 0))
    requires WriteStringIn(kind, m, base, address, s, isRelative).outcome.Done?
    requires ReadBytesBy(kind, WriteStringIn(kind, m, base, address, s, isRelative).memory, base, address, maximumLength, isRelative).Ok?
    ensures ReadStringIn(kind, WriteStringIn(kind, m, base, address, s, isRelative).memory, base, address, maximumLength, isRelative) == Ok(s)
  {
    var bytes := Encode(s + [Nul]);
    assert s[|s| - 1] in s;
    var m' := WriteBytesBy(kind, m, base, address, bytes, isRelative).memory;
    var a := Absolute(base, address, isRelative);
    assert ReadBytesBy(kind, m', base, address, |bytes|, isRelative) == Ok(bytes) by {
      match kind
      case ExternalKind => E.WriteThenReadBytes(m, base, address, bytes);
      case LocalKind => L.WriteThenReadBytes(m, base, address, bytes, isRelative);
    }
    var buffer := ReadBytesBy(kind, m', base, address, maximumLength, isRelative).value;
    LoadPrefix(m', a, maximumLength, |bytes|);
    assert buffer[..|s| + 1] == bytes;
    TextOfTerminated(s, buffer);
  }
}
