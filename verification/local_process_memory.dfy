/** The in-process backend: memory is reached through raw pointers, one byte at
    a time, with no argument checks; touching a location that is not mapped
    with the needed access faults. As for the out-of-process backend, each
    operation is specified by a function of a memory snapshot and the base
    address (`...In`), and each method is proved to do what that function says. */
module LocalProcessMemory {
  import opened Common
  import opened AddressSpace
  import opened MarshalCache
  import opened NativeMemory

  // ---------------------------------------------------------------------------
  // What each operation does, on a snapshot `m` with base address `base`

  /** ReadBytes: a relative address is made absolute, a negative count fails to
      allocate the buffer, and the bytes are then copied one by one; an
      unreadable byte faults. */
  function ReadBytesIn(m: Memory, base: IntPtr, address: IntPtr, count: int, isRelative: bool): (r: Result<seq<byte>>)
    ensures r.Ok? ==> |r.value| == count
  {
    var a := Absolute(base, address, isRelative);
    if count < 0 then Err(Overflow)
    else if AllReadable(m, a, count) then Ok(Load(m, a, count))
    else Err(AccessViolation)
  }

  /** The index of the first byte of the range that is not writable, or `n`
      when all of them are. */
  function FirstUnwritable(m: Memory, a: IntPtr, n: nat): (k: nat)
    ensures k <= n && AllWritable(m, a, k)
    ensures k < n ==> !m.Writable(Loc(a, k))
  {
    FirstUnwritableFrom(m, a, n, 0)
  }

  function FirstUnwritableFrom(m: Memory, a: IntPtr, n: nat, i: nat): (k: nat)
    requires i <= n && AllWritable(m, a, i)
    ensures i <= k <= n && AllWritable(m, a, k)
    ensures k < n ==> !m.Writable(Loc(a, k))
    decreases n - i
  {
    if i == n then n
    else if !m.Writable(Loc(a, i)) then i
    else FirstUnwritableFrom(m, a, n, i + 1)
  }

  /** WriteBytes: a relative address is made absolute and the bytes are stored
      one by one; the first unwritable byte faults, leaving the bytes before it
      written. */
  function WriteBytesIn(m: Memory, base: IntPtr, address: IntPtr, bytes: seq<byte>, isRelative: bool): WriteEffect
  {
    var a := Absolute(base, address, isRelative);
    var k := FirstUnwritable(m, a, |bytes|);
    WriteEffect(if k < |bytes| then Fail(AccessViolation) else Done,
                m.(bytes := Store(m.bytes, a, bytes[..k])))
  }

  /** Read<T>: Size(T) bytes at the translated address, through either copy
      path. */
  function ReadIn(m: Memory, base: IntPtr, address: IntPtr, t: ClrType, isRelative: bool): (r: Result<seq<byte>>)
    ensures r.Ok? ==> |r.value| == Size(t)
  {
    ReadBytesIn(m, base, address, Size(t), isRelative)
  }

  /** How ReadInternal moves a value out of memory. */
  datatype CopyPath = RawCopy | Marshalled

  function PathFor(t: ClrType): CopyPath
  {
    if TypeRequiresMarshal(t) then Marshalled else RawCopy
  }

  /** The read of array element `i`, at `a + Size(T) * i`, passing `isRelative`
      on to the element read. */
  function ElementReader(m: Memory, base: IntPtr, a: IntPtr, t: ClrType, isRelative: bool): nat -> Result<seq<byte>>
  {
    i => ReadIn(m, base, Add(a, Size(t) * i), t, isRelative)
  }

  /** Read<T>(address, count) as written: the address is translated once, and
      each element read is given `isRelative` again. */
  function ReadArrayIn(m: Memory, base: IntPtr, address: IntPtr, t: ClrType, count: int, isRelative: bool): Result<seq<seq<byte>>>
  {
    var a := Absolute(base, address, isRelative);
    if count < 0 then Err(Overflow)
    else Collect(count, ElementReader(m, base, a, t, isRelative))
  }

  /** The array read as evidently intended: the address is translated once and
      the elements are read at absolute addresses. */
  function ReadArrayFixedIn(m: Memory, base: IntPtr, address: IntPtr, t: ClrType, count: int, isRelative: bool): Result<seq<seq<byte>>>
  {
    var a := Absolute(base, address, isRelative);
    if count < 0 then Err(Overflow)
    else Collect(count, ElementReader(m, base, a, t, false))
  }

  // ---------------------------------------------------------------------------
  // The backend

  class LocalProcessMemory {
    /** The NativeMemory part of this object: the base address. */
    const native: NativeMemory
    /** This process's own memory. */
    const space: AddressSpace

    constructor (native: NativeMemory, space: AddressSpace)
      ensures this.native == native && this.space == space
    {
      this.native := native;
      this.space := space;
    }

    method ReadBytes(address: IntPtr, count: int, isRelative: bool) returns (r: Result<seq<byte>>)
      ensures r == ReadBytesIn(space.memory, native.fastBaseAddress, address, count, isRelative)
    {
      var a := address;
      if isRelative {
        a := native.ToAbsolute(address);
      }
      if count < 0 {
        return Err(Overflow);
      }
      var buffer := new byte[count];
      for i := 0 to count
        invariant AllReadable(space.memory, a, i)
        invariant buffer[..i] == Load(space.memory, a, i)
      {
        if !space.memory.Readable(Loc(a, i)) {
          return Err(AccessViolation);
        }
        buffer[i] := space.memory.ByteAt(Loc(a, i));
      }
      assert buffer[..] == buffer[..count];
      return Ok(buffer[..]);
    }

    method WriteBytes(address: IntPtr, bytes: seq<byte>, isRelative: bool) returns (r: Outcome)
      modifies space
      ensures WriteEffect(r, space.memory) == WriteBytesIn(old(space.memory), native.fastBaseAddress, address, bytes, isRelative)
      ensures space.allocTop == old(space.allocTop)
    {
      var a := address;
      if isRelative {
        a := native.ToAbsolute(address);
      }
      ghost var m := space.memory;
      for i := 0 to |bytes|
        invariant space.memory == m.(bytes := Store(m.bytes, a, bytes[..i]))
        invariant AllWritable(m, a, i)
        invariant space.allocTop == old(space.allocTop)
      {
        if !space.memory.Writable(Loc(a, i)) {
          return Fail(AccessViolation);
        }
        StoreExtend(m.bytes, a, bytes, i);
        space.Poke(Loc(a, i), bytes[i]);
      }
      assert bytes[..|bytes|] == bytes;
      return Done;
    }

    /** ReadInternal: a type that needs no marshalling is moved in one raw
        copy of Size(T) bytes; any other goes through the marshaller. */
    method ReadInternal(address: IntPtr, t: ClrType) returns (r: Result<seq<byte>>, path: CopyPath)
      ensures path == RawCopy <==> !TypeRequiresMarshal(t)
      ensures r == ReadIn(space.memory, native.fastBaseAddress, address, t, false)
    {
      var size := Size(t);
      path := if !TypeRequiresMarshal(t) then RawCopy else Marshalled;
      if AllReadable(space.memory, address, size) {
        r := Ok(Load(space.memory, address, size));
      } else {
        r := Err(AccessViolation);
      }
    }

    method Read(address: IntPtr, t: ClrType, isRelative: bool) returns (r: Result<seq<byte>>, path: CopyPath)
      ensures path == PathFor(t)
      ensures r == ReadIn(space.memory, native.fastBaseAddress, address, t, isRelative)
    {
      var a := address;
      if isRelative {
        a := native.ToAbsolute(address);
      }
      r, path := ReadInternal(a, t);
    }

    method ReadArray(address: IntPtr, t: ClrType, count: int, isRelative: bool) returns (r: Result<seq<seq<byte>>>)
      ensures r == ReadArrayIn(space.memory, native.fastBaseAddress, address, t, count, isRelative)
    {
      var a := address;
      if isRelative {
        a := native.ToAbsolute(address);
      }
      if count < 0 {
        return Err(Overflow);
      }
      var ret := new seq<byte>[count](_ => []);
      ghost var f := ElementReader(space.memory, native.fastBaseAddress, a, t, isRelative);
      for i := 0 to count
        invariant Collect(i, f) == Ok(ret[..i])
      {
        var e, _ := Read(Add(a, Size(t) * i), t, isRelative);
        if e.Err? {
          CollectStaysFailed(i + 1, count, f);
          return Err(e.error);
        }
        ghost var prefix := ret[..i];
        ret[i] := e.value;
        assert ret[..i + 1] == prefix + [e.value];
      }
      assert ret[..] == ret[..count];
      return Ok(ret[..]);
    }

    /** Write<T>: Marshal.StructureToPtr stores the Size(T)-byte image at the
        translated address, byte by byte as WriteBytes does. */
    method Write(address: IntPtr, t: ClrType, value: seq<byte>, isRelative: bool) returns (r: Outcome)
      requires |value| == Size(t)
      modifies space
      ensures WriteEffect(r, space.memory) == WriteBytesIn(old(space.memory), native.fastBaseAddress, address, value, isRelative)
      ensures space.allocTop == old(space.allocTop)
    {
      r := WriteBytes(address, value, isRelative);
    }

    /** Marshal.AllocHGlobal((int) size): a size that does not fit an int turns
        negative and is refused, as is a request the heap cannot serve. */
    method Allocate(size: nat) returns (r: Result<AllocatedMemory>)
      requires size < TwoTo32 && space.Valid()
      modifies space
      ensures space.Valid()
      ensures r.Ok? ==> r.value.address != 0 && r.value.size == size
      ensures r.Ok? ==> AllReadable(space.memory, r.value.address, size) && AllWritable(space.memory, r.value.address, size)
      ensures r.Ok? ==> FreshPages(old(space.memory), space.memory, r.value.address, size, ReadWrite)
      ensures r.Ok? ==> KeepsPages(old(space.memory), space.memory)
      ensures r.Ok? ==> space.memory.bytes == old(space.memory).bytes
      ensures r.Err? ==> r.error == OutOfMemory && space.memory == old(space.memory)
      ensures size >= TwoTo31 ==> r == Err(OutOfMemory)
    {
      var n := Wrap(size);
      if n < 0 {
        return Err(OutOfMemory);
      }
      WrapOfNat(size);
      var p := space.HeapAlloc(n);
      if p == 0 {
        return Err(OutOfMemory);
      }
      return Ok(AllocatedMemory(p, size));
    }
  }

  /** `(int) size` keeps a size below 2^31 and makes a larger one negative. */
  lemma WrapOfNat(size: nat)
    requires size < TwoTo32
    ensures size < TwoTo31 ==> Wrap(size) == size
    ensures size >= TwoTo31 ==> Wrap(size) == size - TwoTo32
  {
    if size < TwoTo31 {
      WrapFits(size);
    } else {
      ModUnique(size + TwoTo31, 1, size - TwoTo31);
    }
  }

  // ---------------------------------------------------------------------------
  // Properties

  /** With no argument checks, a zero count reads an empty buffer at any
      address, zero included. */
  lemma ZeroCountReadsNothing(m: Memory, base: IntPtr, address: IntPtr, isRelative: bool)
    ensures ReadBytesIn(m, base, address, 0, isRelative) == Ok([])
  {
  }

  /** A byte read succeeds exactly when the count is not negative and every
      byte of the translated range is readable, and returns those bytes. */
  lemma ReadBytesOutcome(m: Memory, base: IntPtr, address: IntPtr, count: int, isRelative: bool)
    ensures var r := ReadBytesIn(m, base, address, count, isRelative);
      && (r.Ok? <==> count >= 0 && AllReadable(m, Absolute(base, address, isRelative), count))
      && (r.Ok? ==> forall i :: 0 <= i < count ==> r.value[i] == m.ByteAt(Loc(Absolute(base, address, isRelative), i)))
      && (count >= 0 && r.Err? ==> r.error == AccessViolation)
  {
  }

  /** A byte write stores `bytes[i]` at byte `i` of the translated range for
      every index before the first unwritable one, fails exactly when there is
      one, and changes no other byte and no page. */
  lemma WriteBytesEffect(m: Memory, base: IntPtr, address: IntPtr, bytes: seq<byte>, isRelative: bool)
    requires |bytes| < TwoTo31
    ensures var w := WriteBytesIn(m, base, address, bytes, isRelative);
      var a := Absolute(base, address, isRelative);
      var k := FirstUnwritable(m, a, |bytes|);
      && (w.outcome.Done? <==> AllWritable(m, a, |bytes|))
      && w.memory.pages == m.pages
      && (forall i :: 0 <= i < k ==> w.memory.ByteAt(Loc(a, i)) == bytes[i])
      && (forall u: nat :: (forall i :: 0 <= i < k ==> Loc(a, i) != u) ==> w.memory.ByteAt(u) == m.ByteAt(u))
  {
    var a := Absolute(base, address, isRelative);
    var k := FirstUnwritable(m, a, |bytes|);
    var w := WriteBytesIn(m, base, address, bytes, isRelative);
    forall i | 0 <= i < k
      ensures w.memory.ByteAt(Loc(a, i)) == bytes[i]
    {
      StoreAt(m.bytes, a, bytes[..k], i);
    }
    forall u: nat | forall i :: 0 <= i < k ==> Loc(a, i) != u
      ensures w.memory.ByteAt(u) == m.ByteAt(u)
    {
      StoreElsewhere(m.bytes, a, bytes[..k], u);
    }
  }

  /** Writing bytes and reading the same count at the same address, with the
      same `isRelative`, gives the bytes back. */
  lemma WriteThenReadBytes(m: Memory, base: IntPtr, address: IntPtr, bytes: seq<byte>, isRelative: bool)
    requires |bytes| < TwoTo31
    requires WriteBytesIn(m, base, address, bytes, isRelative).outcome.Done?
    ensures ReadBytesIn(WriteBytesIn(m, base, address, bytes, isRelative).memory, base, address, |bytes|, isRelative) == Ok(bytes)
  {
    var a := Absolute(base, address, isRelative);
    assert bytes[..|bytes|] == bytes;
    StoreThenLoad(m, a, bytes);
  }

  /** A relative read or write touches ToAbsolute of the address: the base is
      added exactly once. */
  lemma RelativeIsTranslatedOnce(m: Memory, base: IntPtr, address: IntPtr, t: ClrType, bytes: seq<byte>)
    ensures ReadIn(m, base, address, t, true) == ReadIn(m, base, Add(address, base), t, false)
    ensures WriteBytesIn(m, base, address, bytes, true) == WriteBytesIn(m, base, Add(address, base), bytes, false)
  {
  }

  /** Types without MarshalAs fields, among them every built-in type and every
      enum, take the raw-copy path. */
  lemma BuiltInTypesCopyRaw(t: ClrType)
    requires !t.Struct?
    ensures PathFor(t) == RawCopy
  {
    RequiresMarshalIffMarshalAs(t);
  }

  /** As written, element `i` of a relative array read is read at
      `address + 2 * base + Size(T) * i`: the base is added twice. */
  lemma ReadArrayAddsBaseTwice(m: Memory, base: IntPtr, address: IntPtr, t: ClrType, i: nat)
    ensures ElementReader(m, base, Absolute(base, address, true), t, true)(i)
         == ReadIn(m, base, Add(address, 2 * base + Size(t) * i), t, false)
  {
    AddAdd(address, base, Size(t) * i);
    AddAdd(address, base + Size(t) * i, base);
  }

  /** In the intended array read, element `i` is the single read at
      `address + Size(T) * i` with the same `isRelative`. */
  lemma ReadArrayFixedElements(m: Memory, base: IntPtr, address: IntPtr, t: ClrType, count: int, isRelative: bool)
    ensures var r := ReadArrayFixedIn(m, base, address, t, count, isRelative);
      r.Ok? ==> (|r.value| == count &&
        forall i :: 0 <= i < count ==> ReadIn(m, base, Add(address, Size(t) * i), t, isRelative) == Ok(r.value[i]))
  {
    var a := Absolute(base, address, isRelative);
    var f := ElementReader(m, base, a, t, false);
    if count >= 0 && Collect(count, f).Ok? {
      CollectElements(count, f);
      forall i | 0 <= i < count
        ensures ReadIn(m, base, Add(address, Size(t) * i), t, isRelative) == f(i)
      {
        if isRelative {
          AddAdd(address, base, Size(t) * i);
          AddAdd(address, Size(t) * i, base);
        }
      }
    }
  }

  /** One readable page at 0x2000, all zero. */
  function ArrayExample(): Memory
  {
    Memory(map[], map[2 := ReadWrite])
  }

  /** With base 0x1000, the single read of one byte at relative 0x1000 reads
      0x2000, but the one-element array read faults at 0x3000. */
  lemma ReadArrayBaseTwiceExample()
    ensures ReadIn(ArrayExample(), 0x1000, 0x1000, Primitive(Byte), true) == Ok([0])
    ensures ReadArrayIn(ArrayExample(), 0x1000, 0x1000, Primitive(Byte), 1, true) == Err(AccessViolation)
    ensures ReadArrayFixedIn(ArrayExample(), 0x1000, 0x1000, Primitive(Byte), 1, true) == Ok([[0]])
  {
    var m := ArrayExample();
    assert Size(Primitive(Byte)) == 1;
    WrapFits(0x2000);
    WrapFits(0x3000);
    assert Loc(0x2000, 0) == 0x2000;
    assert Loc(0x3000, 0) == 0x3000;
    assert Load(m, 0x2000, 1) == [0];
    assert !m.Readable(Loc(0x3000, 0));
    assert Add(0x1000, 0x1000) == 0x2000;
    assert Add(0x2000, Size(Primitive(Byte)) * 0) == 0x2000;
    var f := ElementReader(m, 0x1000, 0x2000, Primitive(Byte), false);
    assert f(0) == Ok([0]);
    assert Collect(0, f) == Ok([]);
    var zero: seq<byte> := [0];
    assert [] + [zero] == [zero];
  }
}
