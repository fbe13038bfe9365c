/** The out-of-process backend: every access goes through the OS primitives of
    the target's address space. Each operation is specified by a function of a
    memory snapshot and the base address (`...In`), and each method is proved to
    do what that function says. */
module ExternalProcessMemory {
  import opened Common
  import opened AddressSpace
  import opened MarshalCache
  import opened NativeMemory

  // ---------------------------------------------------------------------------
  // What each operation does, on a snapshot `m` with base address `base`

  /** ReadBytes: zero count and zero address are rejected, in that order; a
      relative address is made absolute; then either all `count` bytes are read
      or a read error names the absolute address and the count. */
  function ReadBytesIn(m: Memory, base: IntPtr, address: IntPtr, count: int, isRelative: bool): (r: Result<seq<byte>>)
    ensures r.Ok? ==> |r.value| == count
  {
    if count == 0 then Err(Argument("count"))
    else if address == 0 then Err(Argument("address"))
    else
      var a := Absolute(base, address, isRelative);
      if count < 0 then Err(Overflow)
      else if AllReadable(m, a, count) then Ok(Load(m, a, count))
      else Err(MemoryRead(a, count))
  }

  /** WriteBytes: zero address and empty payload are rejected; otherwise the
      range is made PAGE_EXECUTE_READWRITE, written, and re-protected with the
      protection VirtualProtectEx reported (that of its first page). The
      address goes to the OS as given: `isRelative` plays no part. */
  function WriteBytesIn(m: Memory, address: IntPtr, bytes: seq<byte>): WriteEffect
  {
    if address == 0 then WriteEffect(Fail(Argument("address")), m)
    else if |bytes| == 0 then WriteEffect(Fail(Argument("bytes")), m)
    else if !AllCommitted(m, address, |bytes|) then WriteEffect(Fail(MemoryWrite(address, |bytes|)), m)
    else
      var previous := FirstPageProtection(m, address);
      var unlocked := Protect(m.pages, address, |bytes|, ExecuteReadWrite);
      var restored := if IsProtection(previous) then Protect(unlocked, address, |bytes|, previous) else unlocked;
      WriteEffect(Done, Memory(Store(m.bytes, address, bytes), restored))
  }

  /** Read<T>: a zero address is rejected, then exactly Size(T) bytes are read. */
  function ReadIn(m: Memory, base: IntPtr, address: IntPtr, t: ClrType, isRelative: bool): (r: Result<seq<byte>>)
    ensures r.Ok? ==> |r.value| == Size(t)
  {
    if address == 0 then Err(Argument("address"))
    else ReadBytesIn(m, base, address, Size(t), isRelative)
  }

  /** Read<IntPtr>: four bytes, decoded little-endian. */
  function ReadPointerIn(m: Memory, base: IntPtr, address: IntPtr, isRelative: bool): Result<IntPtr>
  {
    var b :- ReadIn(m, base, address, IntPtrType, isRelative);
    Ok(DecodePointer(b))
  }

  /** The read of array element `i`, at `address + i * Size(T)`. */
  function ElementReader(m: Memory, base: IntPtr, address: IntPtr, t: ClrType, isRelative: bool): nat -> Result<seq<byte>>
  {
    i => ReadIn(m, base, Add(address, i * Size(t)), t, isRelative)
  }

  /** Read<T>(address, count): a zero address is rejected and a negative count
      fails to allocate the array; then the elements are read in order and the
      first failing one aborts the whole read. */
  function ReadArrayIn(m: Memory, base: IntPtr, address: IntPtr, t: ClrType, count: int, isRelative: bool): Result<seq<seq<byte>>>
  {
    if address == 0 then Err(Argument("address"))
    else if count < 0 then Err(Overflow)
    else Collect(count, ElementReader(m, base, address, t, isRelative))
  }

  /** The pointer reached from `p` by adding each offset in turn and reading a
      pointer there. */
  function FollowIn(m: Memory, base: IntPtr, p: IntPtr, offsets: seq<IntPtr>, isRelative: bool): Result<IntPtr>
    decreases |offsets|
  {
    if offsets == [] then Ok(p)
    else
      var q :- ReadPointerIn(m, base, Add(p, offsets[0]), isRelative);
      FollowIn(m, base, q, offsets[1..], isRelative)
  }

  /** The address list must be non-empty and start with a non-zero address. */
  predicate ChainArgumentsOk(addresses: seq<IntPtr>)
  {
    |addresses| > 0 && addresses[0] != 0
  }

  /** Read<T>(isRelative, addresses) as written: a single address is a plain
      read; otherwise a pointer is read at `addresses[0]`, then at `p +
      addresses[i]` for every middle offset, and T is read at the last pointer
      itself. The last offset is never used. */
  function ReadChainIn(m: Memory, base: IntPtr, t: ClrType, addresses: seq<IntPtr>, isRelative: bool): Result<seq<byte>>
  {
    if !ChainArgumentsOk(addresses) then Err(Argument("addresses"))
    else if |addresses| == 1 then ReadIn(m, base, addresses[0], t, isRelative)
    else
      var p0 :- ReadPointerIn(m, base, addresses[0], isRelative);
      var p :- FollowIn(m, base, p0, addresses[1..|addresses| - 1], isRelative);
      ReadIn(m, base, p, t, isRelative)
  }

  /** The chain read as evidently intended: T is read at the last pointer plus
      the last offset, as the chain write does. */
  function ReadChainFixedIn(m: Memory, base: IntPtr, t: ClrType, addresses: seq<IntPtr>, isRelative: bool): Result<seq<byte>>
  {
    if !ChainArgumentsOk(addresses) then Err(Argument("addresses"))
    else if |addresses| == 1 then ReadIn(m, base, addresses[0], t, isRelative)
    else
      var p0 :- ReadPointerIn(m, base, addresses[0], isRelative);
      var p :- FollowIn(m, base, p0, addresses[1..|addresses| - 1], isRelative);
      ReadIn(m, base, Add(p, addresses[|addresses| - 1]), t, isRelative)
  }

  /** Write<T>: a zero address is rejected, then the Size(T)-byte image is
      written with WriteBytes. */
  function WriteIn(m: Memory, address: IntPtr, value: seq<byte>): WriteEffect
  {
    if address == 0 then WriteEffect(Fail(Argument("address")), m)
    else WriteBytesIn(m, address, value)
  }

  /** Write<T>(isRelative, value, addresses): a single address is a plain
      write; otherwise the pointers are read as absolute addresses and the
      value is written at the last pointer plus the last offset. */
  function WriteChainIn(m: Memory, base: IntPtr, addresses: seq<IntPtr>, value: seq<byte>): WriteEffect
  {
    if !ChainArgumentsOk(addresses) then WriteEffect(Fail(Argument("addresses")), m)
    else if |addresses| == 1 then WriteIn(m, addresses[0], value)
    else
      match ReadPointerIn(m, base, addresses[0], false)
      case Err(e) => WriteEffect(Fail(e), m)
      case Ok(p0) =>
        match FollowIn(m, base, p0, addresses[1..|addresses| - 1], false)
        case Err(e) => WriteEffect(Fail(e), m)
        case Ok(p) => WriteIn(m, Add(p, addresses[|addresses| - 1]), value)
  }

  // ---------------------------------------------------------------------------
  // The backend

  class ExternalProcessMemory {
    /** The NativeMemory part of this object: the base address. */
    const native: NativeMemory
    /** The target process's memory, reached only through OS calls. */
    const space: AddressSpace

    constructor (native: NativeMemory, space: AddressSpace)
      ensures this.native == native && this.space == space
    {
      this.native := native;
      this.space := space;
    }

    method ReadBytes(address: IntPtr, count: int, isRelative: bool) returns (r: Result<seq<byte>>)
      ensures r == ReadBytesIn(space.memory, native.fastBaseAddress, address, count, isRelative)
    {
      if count == 0 {
        return Err(Argument("count"));
      }
      if address == 0 {
        return Err(Argument("address"));
      }
      var a := address;
      if isRelative {
        a := native.ToAbsolute(address);
      }
      if count < 0 {
        return Err(Overflow);
      }
      var ok, numRead, buffer := space.ReadProcessMemory(a, count);
      if ok && numRead == count {
        return Ok(buffer);
      }
      return Err(MemoryRead(a, count));
    }

    method WriteBytes(address: IntPtr, bytes: seq<byte>, isRelative: bool) returns (r: Outcome)
      modifies space
      ensures WriteEffect(r, space.memory) == WriteBytesIn(old(space.memory), address, bytes)
      ensures space.allocTop == old(space.allocTop)
    {
      if address == 0 {
        return Fail(Argument("address"));
      }
      if |bytes| == 0 {
        return Fail(Argument("bytes"));
      }
      ghost var m := space.memory;
      var _, oldProtect := space.VirtualProtectEx(address, |bytes|, ExecuteReadWrite);
      if AllCommitted(m, address, |bytes|) {
        forall i | 0 <= i < |bytes|
          ensures space.memory.Writable(Loc(address, i))
        {
          assert Page(Loc(address, i)) in PagesOf(address, |bytes|);
        }
      }
      var _, numWritten := space.WriteProcessMemory(address, bytes);
      var _, _ := space.VirtualProtectEx(address, |bytes|, oldProtect);
      if numWritten != |bytes| {
        return Fail(MemoryWrite(address, |bytes|));
      }
      return Done;
    }

    method Read(address: IntPtr, t: ClrType, isRelative: bool) returns (r: Result<seq<byte>>)
      ensures r == ReadIn(space.memory, native.fastBaseAddress, address, t, isRelative)
    {
      if address == 0 {
        return Err(Argument("address"));
      }
      r := ReadBytes(address, Size(t), isRelative);
    }

    method ReadPointer(address: IntPtr, isRelative: bool) returns (r: Result<IntPtr>)
      ensures r == ReadPointerIn(space.memory, native.fastBaseAddress, address, isRelative)
    {
      var b :- Read(address, IntPtrType, isRelative);
      return Ok(DecodePointer(b));
    }

    method ReadArray(address: IntPtr, t: ClrType, count: int, isRelative: bool) returns (r: Result<seq<seq<byte>>>)
      ensures r == ReadArrayIn(space.memory, native.fastBaseAddress, address, t, count, isRelative)
    {
      if address == 0 {
        return Err(Argument("address"));
      }
      if count < 0 {
        return Err(Overflow);
      }
      var size := Size(t);
      var ret := new seq<byte>[count](_ => []);
      ghost var f := ElementReader(space.memory, native.fastBaseAddress, address, t, isRelative);
      for i := 0 to count
        invariant Collect(i, f) == Ok(ret[..i])
      {
        var e := Read(Add(address, i * size), t, isRelative);
        if e.Err? {
          CollectStaysFailed(i + 1, count, f);
          return Err(e.error);
        }
        ghost var prefix := ret[..i];
        ret[i] := e.value;
        assert ret[..i + 1] == prefix + [e.value];
      }
      assert ret[..] == ret[..count];
      return Ok(ret[..]);
    }

    /** The pointer-following loop of the chain operations: `tempPtr` is
        replaced, offset by offset, by the pointer read at `tempPtr + offset`. */
    method Follow(start: IntPtr, offsets: seq<IntPtr>, isRelative: bool) returns (r: Result<IntPtr>)
      ensures r == FollowIn(space.memory, native.fastBaseAddress, start, offsets, isRelative)
    {
      var p := start;
      for i := 0 to |offsets|
        invariant FollowIn(space.memory, native.fastBaseAddress, p, offsets[i..], isRelative)
               == FollowIn(space.memory, native.fastBaseAddress, start, offsets, isRelative)
      {
        assert offsets[i..][1..] == offsets[i + 1..];
        p :- ReadPointer(Add(p, offsets[i]), isRelative);
      }
      return Ok(p);
    }

    method ReadChain(t: ClrType, addresses: seq<IntPtr>, isRelative: bool) returns (r: Result<seq<byte>>)
      ensures r == ReadChainIn(space.memory, native.fastBaseAddress, t, addresses, isRelative)
    {
      if !(|addresses| > 0) || addresses[0] == 0 {
        return Err(Argument("addresses"));
      }
      if |addresses| == 1 {
        r := Read(addresses[0], t, isRelative);
        return;
      }
      var p0 :- ReadPointer(addresses[0], isRelative);
      var p :- Follow(p0, addresses[1..|addresses| - 1], isRelative);
      r := Read(p, t, isRelative);
    }

    method Write(address: IntPtr, t: ClrType, value: seq<byte>, isRelative: bool) returns (r: Outcome)
      requires |value| == Size(t)
      modifies space
      ensures WriteEffect(r, space.memory) == WriteIn(old(space.memory), address, value)
      ensures space.allocTop == old(space.allocTop)
    {
      if address == 0 {
        return Fail(Argument("address"));
      }
      r := WriteBytes(address, value, isRelative);
    }

    method WriteChain(t: ClrType, value: seq<byte>, addresses: seq<IntPtr>, isRelative: bool) returns (r: Outcome)
      requires |value| == Size(t)
      modifies space
      ensures WriteEffect(r, space.memory) == WriteChainIn(old(space.memory), native.fastBaseAddress, addresses, value)
      ensures space.allocTop == old(space.allocTop)
    {
      if !(|addresses| > 0) || addresses[0] == 0 {
        return Fail(Argument("addresses"));
      }
      if |addresses| == 1 {
        r := Write(addresses[0], t, value, isRelative);
        return;
      }
      var p0 := ReadPointer(addresses[0], false);
      if p0.Err? {
        return Fail(p0.error);
      }
      var p := Follow(p0.value, addresses[1..|addresses| - 1], false);
      if p.Err? {
        return Fail(p.error);
      }
      r := Write(Add(p.value, addresses[|addresses| - 1]), t, value, isRelative);
    }

    /** VirtualAllocEx of `size` bytes; a zero address is an engine error. */
    method Allocate(size: nat) returns (r: Result<AllocatedMemory>)
      requires size < TwoTo32 && space.Valid()
      modifies space
      ensures space.Valid()
      ensures r.Ok? ==> r.value.address != 0 && r.value.size == size
      ensures r.Ok? ==> AllReadable(space.memory, r.value.address, size) && AllWritable(space.memory, r.value.address, size)
      ensures r.Ok? ==> FreshPages(old(space.memory), space.memory, r.value.address, size, ExecuteReadWrite)
      ensures r.Ok? ==> KeepsPages(old(space.memory), space.memory)
      ensures r.Ok? ==> space.memory.bytes == old(space.memory).bytes
      ensures r.Err? ==> r.error == Engine(size) && space.memory == old(space.memory)
      ensures size == 0 ==> r == Err(Engine(0))
    {
      var chunk := space.VirtualAllocEx(size);
      if chunk != 0 {
        return Ok(AllocatedMemory(chunk, size));
      }
      return Err(Engine(size));
    }
  }

  // ---------------------------------------------------------------------------
  // Properties

  /** A byte read succeeds exactly when the count is positive, the address is
      not zero and every byte of the translated range is readable; it then
      returns exactly those bytes, and never a shorter buffer. Each failure has
      its own error. */
  lemma ReadBytesOutcome(m: Memory, base: IntPtr, address: IntPtr, count: int, isRelative: bool)
    ensures var r := ReadBytesIn(m, base, address, count, isRelative);
      && (r.Ok? <==> count > 0 && address != 0 && AllReadable(m, Absolute(base, address, isRelative), count))
      && (r.Ok? ==> r.value == Load(m, Absolute(base, address, isRelative), count))
      && (count == 0 ==> r == Err(Argument("count")))
      && (count != 0 && address == 0 ==> r == Err(Argument("address")))
      && (count > 0 && address != 0 && !AllReadable(m, Absolute(base, address, isRelative), count) ==>
            r == Err(MemoryRead(Absolute(base, address, isRelative), count)))
  {
  }

  /** Reading relative to the base is reading at ToAbsolute of the address
      (when that is not zero). */
  lemma RelativeReadIsAbsoluteRead(m: Memory, base: IntPtr, address: IntPtr, count: int)
    requires address != 0 && Add(address, base) != 0
    ensures ReadBytesIn(m, base, address, count, true) == ReadBytesIn(m, base, Add(address, base), count, false)
  {
  }

  /** A byte write succeeds exactly when the address is not zero, the payload
      is not empty and the whole range is committed; a failed write changes
      nothing. */
  lemma WriteBytesOutcome(m: Memory, address: IntPtr, bytes: seq<byte>)
    ensures var w := WriteBytesIn(m, address, bytes);
      && (w.outcome.Done? <==> address != 0 && |bytes| > 0 && AllCommitted(m, address, |bytes|))
      && (w.outcome.Fail? ==> w.memory == m)
      && (address != 0 && |bytes| > 0 && !w.outcome.Done? ==> w.outcome == Fail(MemoryWrite(address, |bytes|)))
  {
  }

  /** A write changes no byte outside the written range and commits or
      releases no page. */
  lemma WriteBytesFrame(m: Memory, address: IntPtr, bytes: seq<byte>, u: nat)
    requires forall i :: 0 <= i < |bytes| ==> Loc(address, i) != u
    ensures WriteBytesIn(m, address, bytes).memory.ByteAt(u) == m.ByteAt(u)
    ensures WriteBytesIn(m, address, bytes).memory.pages.Keys == m.pages.Keys
  {
    if WriteBytesIn(m, address, bytes).outcome.Done? {
      StoreElsewhere(m.bytes, address, bytes, u);
    }
  }

  /** After a write the range's protection is what it was before exactly when
      the range had one protection throughout; otherwise every page of the
      range ends up with the protection of the first one. */
  lemma WriteBytesRestoresProtection(m: Memory, address: IntPtr, bytes: seq<byte>)
    requires address != 0 && |bytes| > 0 && AllCommitted(m, address, |bytes|)
    requires IsProtection(FirstPageProtection(m, address))
    ensures WriteBytesIn(m, address, bytes).memory.pages == m.pages
        <==> (forall i :: 0 <= i < |bytes| ==> m.pages[Page(Loc(address, i))] == FirstPageProtection(m, address))
    ensures forall i :: 0 <= i < |bytes| ==>
        WriteBytesIn(m, address, bytes).memory.pages[Page(Loc(address, i))] == FirstPageProtection(m, address)
  {
    RestoreUniform(m, address, |bytes|);
    forall i | 0 <= i < |bytes|
      ensures WriteBytesIn(m, address, bytes).memory.pages[Page(Loc(address, i))] == FirstPageProtection(m, address)
    {
      assert Page(Loc(address, i)) in PagesOf(address, |bytes|);
    }
  }

  /** Bytes written to a range whose first page is readable are read back
      unchanged from the same address. */
  lemma WriteThenReadBytes(m: Memory, base: IntPtr, address: IntPtr, bytes: seq<byte>)
    requires |bytes| < TwoTo31
    requires WriteBytesIn(m, address, bytes).outcome.Done?
    requires AllowsRead(FirstPageProtection(m, address))
    ensures ReadBytesIn(WriteBytesIn(m, address, bytes).memory, base, address, |bytes|, false) == Ok(bytes)
  {
    var m' := WriteBytesIn(m, address, bytes).memory;
    WriteBytesRestoresProtection(m, address, bytes);
    StoreThenLoad(m, address, bytes);
    assert Load(m', address, |bytes|) == Load(m.(bytes := Store(m.bytes, address, bytes)), address, |bytes|);
  }

  /** Write<T> followed by Read<T> at the same absolute address gives the value
      back: both move exactly Size(T) bytes. */
  lemma WriteThenRead(m: Memory, base: IntPtr, address: IntPtr, t: ClrType, value: seq<byte>)
    requires |value| == Size(t) < TwoTo31
    requires WriteIn(m, address, value).outcome.Done?
    requires AllowsRead(FirstPageProtection(m, address))
    ensures ReadIn(WriteIn(m, address, value).memory, base, address, t, false) == Ok(value)
  {
    WriteThenReadBytes(m, base, address, value);
  }

  /** A successful typed read is the Size(T) bytes at the translated address. */
  lemma ReadTransfersSize(m: Memory, base: IntPtr, address: IntPtr, t: ClrType, isRelative: bool)
    requires ReadIn(m, base, address, t, isRelative).Ok?
    ensures ReadIn(m, base, address, t, isRelative).value == Load(m, Absolute(base, address, isRelative), Size(t))
    ensures Size(t) > 0
  {
  }

  /** A successful array read has `count` elements and element `i` is the
      value read at `address + i * Size(T)`; a failing one reports the error of
      the first element that fails. */
  lemma ReadArrayElements(m: Memory, base: IntPtr, address: IntPtr, t: ClrType, count: int, isRelative: bool)
    ensures var r := ReadArrayIn(m, base, address, t, count, isRelative);
      r.Ok? ==> (|r.value| == count &&
        forall i :: 0 <= i < count ==> ReadIn(m, base, Add(address, i * Size(t)), t, isRelative) == Ok(r.value[i]))
  {
    if address != 0 && count >= 0 {
      var f := ElementReader(m, base, address, t, isRelative);
      if Collect(count, f).Ok? {
        CollectElements(count, f);
      }
    }
  }

  /** The first element read that fails decides the error of the array read. */
  lemma ReadArrayFirstFailure(m: Memory, base: IntPtr, address: IntPtr, t: ClrType, count: int, isRelative: bool, k: nat)
    requires address != 0 && k < count
    requires ReadIn(m, base, Add(address, k * Size(t)), t, isRelative).Err?
    requires forall i :: 0 <= i < k ==> ReadIn(m, base, Add(address, i * Size(t)), t, isRelative).Ok?
    ensures ReadArrayIn(m, base, address, t, count, isRelative) == Err(ReadIn(m, base, Add(address, k * Size(t)), t, isRelative).error)
  {
    var f := ElementReader(m, base, address, t, isRelative);
    assert forall i :: 0 <= i < k ==> f(i).Ok?;
    CollectFailsAtFirst(count, f, k);
  }

  /** The chain read as written is the intended chain read with the last offset
      replaced by zero: whatever the last offset, T is read at the last
      pointer itself. */
  lemma {:induction false} ReadChainDropsLastOffset(m: Memory, base: IntPtr, t: ClrType, addresses: seq<IntPtr>, isRelative: bool)
    requires |addresses| >= 2
    ensures ReadChainIn(m, base, t, addresses, isRelative)
         == ReadChainFixedIn(m, base, t, addresses[..|addresses| - 1] + [0], isRelative)
  {
    var zeroed := addresses[..|addresses| - 1] + [0];
    assert zeroed[0] == addresses[0];
    assert zeroed[1..|zeroed| - 1] == addresses[1..|addresses| - 1];
    forall p: IntPtr ensures Add(p, 0) == p {
      WrapFits(p);
    }
  }

  /** Two readable pages: a pointer to 0x2000 stored at 0x1000, a zero at
      0x2000 and a 7 at 0x2004. */
  function ChainExample(): Memory
  {
    Memory(map[0x1000 := 0x00, 0x1001 := 0x20, 0x1002 := 0x00, 0x1003 := 0x00, 0x2004 := 7],
           map[1 := ReadWrite, 2 := ReadWrite])
  }

  /** `Read<byte>(false, 0x1000, 4)` reads at 0x2000 instead of at 0x2004. */
  lemma ReadChainIgnoresOffsetExample()
    ensures ReadChainIn(ChainExample(), 0, Primitive(Byte), [0x1000, 4], false) == Ok([0])
    ensures ReadChainFixedIn(ChainExample(), 0, Primitive(Byte), [0x1000, 4], false) == Ok([7])
  {
    var m := ChainExample();
    assert Size(Primitive(Byte)) == 1;
    assert Size(IntPtrType) == 4;
    assert AllReadable(m, 0x1000, 4) by {
      forall i | 0 <= i < 4 ensures m.Readable(Loc(0x1000, i)) {
        assert Loc(0x1000, i) == 0x1000 + i;
      }
    }
    assert Load(m, 0x1000, 4) == [0x00, 0x20, 0x00, 0x00];
    WrapFits(0x2000);
    assert ReadPointerIn(m, 0, 0x1000, false) == Ok(0x2000);
    assert [0x1000, 4][1..1] == [];
    assert Loc(0x2000, 0) == 0x2000;
    assert Load(m, 0x2000, 1) == [0];
    WrapFits(0x2004);
    assert Loc(0x2004, 0) == 0x2004;
    assert Load(m, 0x2004, 1) == [7];
  }

  /** The intended chain read dereferences `addresses[0]` and reads T at the
      pointer found there plus the offset. */
  lemma ReadChainFixedTwoSteps(m: Memory, base: IntPtr, t: ClrType, a0: IntPtr, offset: IntPtr, isRelative: bool)
    requires a0 != 0
    ensures ReadChainFixedIn(m, base, t, [a0, offset], isRelative) ==
      match ReadPointerIn(m, base, a0, isRelative)
      case Err(e) => Err(e)
      case Ok(p) => ReadIn(m, base, Add(p, offset), t, isRelative)
  {
    assert [a0, offset][1..1] == [];
  }

  /** With the pointer reads done as absolute reads, FollowIn does not depend
      on the base address. */
  lemma {:induction false} FollowAbsoluteIgnoresBase(m: Memory, base1: IntPtr, base2: IntPtr, p: IntPtr, offsets: seq<IntPtr>)
    ensures FollowIn(m, base1, p, offsets, false) == FollowIn(m, base2, p, offsets, false)
    decreases |offsets|
  {
    if offsets != [] {
      var q := ReadPointerIn(m, base1, Add(p, offsets[0]), false);
      assert q == ReadPointerIn(m, base2, Add(p, offsets[0]), false);
      if q.Ok? {
        FollowAbsoluteIgnoresBase(m, base1, base2, q.value, offsets[1..]);
      }
    }
  }

  /** The chain write never consults the base address: its pointer reads are
      absolute and its final write ignores `isRelative`. */
  lemma WriteChainIgnoresBase(m: Memory, base1: IntPtr, base2: IntPtr, addresses: seq<IntPtr>, value: seq<byte>)
    ensures WriteChainIn(m, base1, addresses, value) == WriteChainIn(m, base2, addresses, value)
  {
    if ChainArgumentsOk(addresses) && |addresses| > 1 {
      var p0 := ReadPointerIn(m, base1, addresses[0], false);
      assert p0 == ReadPointerIn(m, base2, addresses[0], false);
      if p0.Ok? {
        FollowAbsoluteIgnoresBase(m, base1, base2, p0.value, addresses[1..|addresses| - 1]);
      }
    }
  }

  /** A chain write whose pointer reads fail writes nothing: a read error
      always leaves memory as it was. */
  lemma WriteChainReadErrorWritesNothing(m: Memory, base: IntPtr, addresses: seq<IntPtr>, value: seq<byte>)
    requires WriteChainIn(m, base, addresses, value).outcome.Fail?
    requires WriteChainIn(m, base, addresses, value).outcome.error.MemoryRead?
    ensures WriteChainIn(m, base, addresses, value).memory == m
  {
  }

  /** The write chain as in its test: a pointer read at `addresses[0]`
      that fails ends the write with that read error. */
  lemma WriteChainFirstReadFails(m: Memory, base: IntPtr, addresses: seq<IntPtr>, value: seq<byte>)
    requires |addresses| >= 2 && addresses[0] != 0
    requires !AllReadable(m, addresses[0], PointerSize)
    ensures WriteChainIn(m, base, addresses, value) == WriteEffect(Fail(MemoryRead(addresses[0], PointerSize)), m)
  {
    assert Size(IntPtrType) == PointerSize;
  }

  /** The error of a failing pointer read: a zero address is rejected by the
      argument check of Read<T> before any memory is read; any other address
      fails exactly when its four bytes are not readable, with a read error. */
  lemma PointerReadError(m: Memory, base: IntPtr, a: IntPtr, isRelative: bool)
    ensures a == 0 ==> ReadPointerIn(m, base, a, isRelative) == Err(Argument("address"))
    ensures a != 0 ==> (ReadPointerIn(m, base, a, isRelative).Err? <==> !AllReadable(m, Absolute(base, a, isRelative), PointerSize))
    ensures a != 0 && ReadPointerIn(m, base, a, isRelative).Err? ==>
      ReadPointerIn(m, base, a, isRelative).error == MemoryRead(Absolute(base, a, isRelative), PointerSize)
  {
    assert Size(IntPtrType) == PointerSize;
  }

  /** When the hops before hop `k` succeed and reach `q`, and the pointer read
      at `q + offsets[k]` fails, following the whole offset list fails with
      that error. */
  lemma {:induction false} FollowFailsAtHop(m: Memory, base: IntPtr, p: IntPtr, offsets: seq<IntPtr>, isRelative: bool, k: nat, q: IntPtr)
    requires k < |offsets|
    requires FollowIn(m, base, p, offsets[..k], isRelative) == Ok(q)
    requires ReadPointerIn(m, base, Add(q, offsets[k]), isRelative).Err?
    ensures FollowIn(m, base, p, offsets, isRelative) == Err(ReadPointerIn(m, base, Add(q, offsets[k]), isRelative).error)
    decreases k
  {
    if k > 0 {
      var p1 := ReadPointerIn(m, base, Add(p, offsets[0]), isRelative).value;
      assert offsets[..k][1..] == offsets[1..][..k - 1];
      assert offsets[1..][k - 1] == offsets[k];
      FollowFailsAtHop(m, base, p1, offsets[1..], isRelative, k - 1, q);
    }
  }

  /** The hops of a chain are FollowIn from address 0 over every address but
      the last: hop 0 reads at `0 + addresses[0]`. */
  lemma ChainHops(m: Memory, base: IntPtr, addresses: seq<IntPtr>, isRelative: bool)
    requires |addresses| >= 2
    ensures FollowIn(m, base, 0, addresses[..|addresses| - 1], isRelative) ==
      match ReadPointerIn(m, base, addresses[0], isRelative)
      case Err(e) => Err(e)
      case Ok(p0) => FollowIn(m, base, p0, addresses[1..|addresses| - 1], isRelative)
  {
    WrapFits(addresses[0]);
    assert addresses[..|addresses| - 1][1..] == addresses[1..|addresses| - 1];
  }

  /** A chain read whose hop `k` fails (hop 0 being the read at `addresses[0]`)
      ends with that hop's error and reads no value. */
  lemma ReadChainHopFails(m: Memory, base: IntPtr, t: ClrType, addresses: seq<IntPtr>, isRelative: bool, k: nat, q: IntPtr)
    requires ChainArgumentsOk(addresses) && k < |addresses| - 1
    requires FollowIn(m, base, 0, addresses[..k], isRelative) == Ok(q)
    requires ReadPointerIn(m, base, Add(q, addresses[k]), isRelative).Err?
    ensures ReadChainIn(m, base, t, addresses, isRelative) == Err(ReadPointerIn(m, base, Add(q, addresses[k]), isRelative).error)
  {
    var hops := addresses[..|addresses| - 1];
    assert hops[..k] == addresses[..k] && hops[k] == addresses[k];
    FollowFailsAtHop(m, base, 0, hops, isRelative, k, q);
    ChainHops(m, base, addresses, isRelative);
  }

  /** A chain write whose hop `k` fails (its hops are absolute reads) ends with
      that hop's error and leaves memory unchanged. */
  lemma WriteChainHopFails(m: Memory, base: IntPtr, addresses: seq<IntPtr>, value: seq<byte>, k: nat, q: IntPtr)
    requires ChainArgumentsOk(addresses) && k < |addresses| - 1
    requires FollowIn(m, base, 0, addresses[..k], false) == Ok(q)
    requires ReadPointerIn(m, base, Add(q, addresses[k]), false).Err?
    ensures WriteChainIn(m, base, addresses, value) == WriteEffect(Fail(ReadPointerIn(m, base, Add(q, addresses[k]), false).error), m)
  {
    var hops := addresses[..|addresses| - 1];
    assert hops[..k] == addresses[..k] && hops[k] == addresses[k];
    FollowFailsAtHop(m, base, 0, hops, false, k, q);
    ChainHops(m, base, addresses, false);
  }

  /** The variable `x` (holding 10) at 0x1000 on a readable page; nothing else
      is committed. */
  function WriteMultipleValsExample(): Memory
  {
    Memory(map[0x1000 := 10], map[1 := ReadWrite])
  }

  /** `Write(true, 1, &x, 0, 0)`: the pointer read at `&x` gives 10, and the
      read at `10 + 0` fails with a read error before anything is written. */
  lemma WriteMultipleValsFails(base: IntPtr, value: seq<byte>)
    ensures WriteChainIn(WriteMultipleValsExample(), base, [0x1000, 0, 0], value)
         == WriteEffect(Fail(MemoryRead(10, PointerSize)), WriteMultipleValsExample())
  {
    var m := WriteMultipleValsExample();
    var addresses: seq<IntPtr> := [0x1000, 0, 0];
    assert AllReadable(m, 0x1000, 4) by {
      forall i | 0 <= i < 4 ensures m.Readable(Loc(0x1000, i)) {
        assert Loc(0x1000, i) == 0x1000 + i;
      }
    }
    assert Load(m, 0x1000, 4) == [10, 0, 0, 0];
    WrapFits(10);
    assert ReadPointerIn(m, base, 0x1000, false) == Ok(10);
    assert FollowIn(m, base, 0, addresses[..1], false) == Ok(10) by {
      WrapFits(0x1000);
      assert addresses[..1][1..] == [];
    }
    assert Add(10, addresses[1]) == 10;
    assert Loc(10, 0) == 10;
    assert !m.Readable(Loc(10, 0));
    PointerReadError(m, base, 10, false);
    WriteChainHopFails(m, base, addresses, value, 1, 10);
  }

  // ---------------------------------------------------------------------------
  // Relative writes

  /** WriteBytes as evidently intended: a relative address is made absolute,
      as ReadBytes does. */
  function WriteBytesTranslatedIn(m: Memory, base: IntPtr, address: IntPtr, bytes: seq<byte>, isRelative: bool): WriteEffect
  {
    if address == 0 then WriteEffect(Fail(Argument("address")), m)
    else WriteBytesIn(m, Absolute(base, address, isRelative), bytes)
  }

  /** With the translation, a relative write followed by a relative read of the
      same address gives the bytes back. */
  lemma RelativeWriteThenReadFixed(m: Memory, base: IntPtr, address: IntPtr, bytes: seq<byte>)
    requires |bytes| < TwoTo31 && address != 0
    requires WriteBytesTranslatedIn(m, base, address, bytes, true).outcome.Done?
    requires AllowsRead(FirstPageProtection(m, Add(address, base)))
    ensures ReadBytesIn(WriteBytesTranslatedIn(m, base, address, bytes, true).memory, base, address, |bytes|, true) == Ok(bytes)
  {
    WriteThenReadBytes(m, base, Add(address, base), bytes);
  }

  /** One readable page at 0x1000 and one at 0x2000, all zero. */
  function RelativeExample(): Memory
  {
    Memory(map[], map[1 := ReadWrite, 2 := ReadWrite])
  }

  /** As written, `WriteBytes(0x1000, [1], true)` with base 0x1000 stores at
      0x1000, and `ReadBytes(0x1000, 1, true)` then reads 0x2000, which still
      holds 0. */
  lemma RelativeWriteMissesExample()
    ensures WriteBytesIn(RelativeExample(), 0x1000, [1]).outcome == Done
    ensures ReadBytesIn(WriteBytesIn(RelativeExample(), 0x1000, [1]).memory, 0x1000, 0x1000, 1, true) == Ok([0])
  {
    var m := RelativeExample();
    assert Loc(0x1000, 0) == 0x1000;
    assert m.Committed(Loc(0x1000, 0));
    var m' := WriteBytesIn(m, 0x1000, [1]).memory;
    assert m'.bytes == map[0x1000 := 1];
    WrapFits(0x2000);
    assert Loc(0x2000, 0) == 0x2000;
    assert m'.pages[2] == ReadWrite;
    assert Load(m', 0x2000, 1) == [0];
  }
}
