/** The operating system's view of one process's memory, which the engine never
    sees directly: byte contents, committed pages with their protection, and an
    allocator. Its methods are the OS primitives the backends call
    (ReadProcessMemory, WriteProcessMemory, VirtualProtectEx, VirtualAllocEx and
    the process heap), each with its effect stated. */
module AddressSpace {
  import opened Common

  const PageSize: nat := 0x1000

  /** Top of the user-mode half of a 32-bit address space. */
  const UserSpaceLimit: nat := 0x8000_0000

  // Memory protection constants (PAGE_*).
  const NoAccess: nat := 0x01
  const ReadOnly: nat := 0x02
  const ReadWrite: nat := 0x04
  const WriteCopy: nat := 0x08
  const Execute: nat := 0x10
  const ExecuteRead: nat := 0x20
  const ExecuteReadWrite: nat := 0x40
  const ExecuteWriteCopy: nat := 0x80

  predicate IsProtection(p: nat)
  {
    p == NoAccess || p == ReadOnly || p == ReadWrite || p == WriteCopy ||
    p == Execute || p == ExecuteRead || p == ExecuteReadWrite || p == ExecuteWriteCopy
  }

  predicate AllowsRead(p: nat)
  {
    p == ReadOnly || p == ReadWrite || p == WriteCopy ||
    p == ExecuteRead || p == ExecuteReadWrite || p == ExecuteWriteCopy
  }

  predicate AllowsWrite(p: nat)
  {
    p == ReadWrite || p == WriteCopy || p == ExecuteReadWrite || p == ExecuteWriteCopy
  }

  function Page(u: nat): nat
  {
    u / PageSize
  }

  /** A snapshot of a process's memory: the bytes stored at unsigned locations
      (committed memory never written holds zero) and the protection of every
      committed page. */
  datatype Memory = Memory(bytes: map<nat, byte>, pages: map<nat, nat>) {
    function ByteAt(u: nat): byte
    {
      if u in bytes then bytes[u] else 0
    }

    predicate Committed(u: nat)
    {
      Page(u) in pages
    }

    predicate Readable(u: nat)
    {
      Page(u) in pages && AllowsRead(pages[Page(u)])
    }

    predicate Writable(u: nat)
    {
      Page(u) in pages && AllowsWrite(pages[Page(u)])
    }
  }

  predicate AllCommitted(m: Memory, a: IntPtr, n: int)
  {
    forall i :: 0 <= i < n ==> m.Committed(Loc(a, i))
  }

  predicate AllReadable(m: Memory, a: IntPtr, n: int)
  {
    forall i :: 0 <= i < n ==> m.Readable(Loc(a, i))
  }

  predicate AllWritable(m: Memory, a: IntPtr, n: int)
  {
    forall i :: 0 <= i < n ==> m.Writable(Loc(a, i))
  }

  /** The `n` bytes found at `a`, `a + 1`, ... */
  function Load(m: Memory, a: IntPtr, n: nat): (r: seq<byte>)
    ensures |r| == n
  {
    seq(n, i requires 0 <= i < n => m.ByteAt(Loc(a, i)))
  }

  /** What a write does: how it ends, and the memory it leaves behind. */
  datatype WriteEffect = WriteEffect(outcome: Outcome, memory: Memory)

  /** The byte map after storing `data` at `a`, `a + 1`, ... in that order. */
  function Store(bytes: map<nat, byte>, a: IntPtr, data: seq<byte>): map<nat, byte>
  {
    if data == [] then bytes
    else Store(bytes, a, data[..|data| - 1])[Loc(a, |data| - 1) := data[|data| - 1]]
  }

  /** The pages holding at least one byte of the range of `n` bytes at `a`. */
  function PagesOf(a: IntPtr, n: int): set<nat>
  {
    set i | 0 <= i < n :: Page(Loc(a, i))
  }

  /** The page map after giving every committed page of the range protection `p`. */
  function Protect(pages: map<nat, nat>, a: IntPtr, n: int, p: nat): (r: map<nat, nat>)
    ensures r.Keys == pages.Keys
  {
    map q | q in pages :: if q in PagesOf(a, n) then p else pages[q]
  }

  /** The protection of the page holding the first byte of a range: what
      VirtualProtectEx reports as the old protection of the whole range. */
  function FirstPageProtection(m: Memory, a: IntPtr): nat
    requires m.Committed(Loc(a, 0))
  {
    m.pages[Page(Loc(a, 0))]
  }

  /** `count` consecutive pages from `first`, all with protection `p`. */
  function PageRun(first: nat, count: nat, p: nat): (r: map<nat, nat>)
    ensures forall q :: q in r <==> first <= q < first + count
    ensures forall q :: q in r ==> r[q] == p
  {
    if count == 0 then map[] else PageRun(first, count - 1, p)[first + count - 1 := p]
  }

  // ---------------------------------------------------------------------------
  // Properties of Load, Store and Protect

  /** Storing leaves every location outside the stored range as it was. */
  lemma {:induction false} StoreElsewhere(bytes: map<nat, byte>, a: IntPtr, data: seq<byte>, u: nat)
    requires forall i :: 0 <= i < |data| ==> Loc(a, i) != u
    ensures Memory(Store(bytes, a, data), map[]).ByteAt(u) == Memory(bytes, map[]).ByteAt(u)
  {
    if data != [] {
      StoreElsewhere(bytes, a, data[..|data| - 1], u);
    }
  }

  /** After storing, byte `i` of the range holds `data[i]`. */
  lemma {:induction false} StoreAt(bytes: map<nat, byte>, a: IntPtr, data: seq<byte>, i: nat)
    requires i < |data| <= TwoTo32
    ensures Memory(Store(bytes, a, data), map[]).ByteAt(Loc(a, i)) == data[i]
  {
    if i < |data| - 1 {
      LocInjective(a, i, |data| - 1);
      StoreAt(bytes, a, data[..|data| - 1], i);
    }
  }

  /** Storing bytes and then loading the same count at the same address gives
      back exactly the stored bytes. */
  lemma StoreThenLoad(m: Memory, a: IntPtr, data: seq<byte>)
    requires |data| <= TwoTo32
    ensures Load(m.(bytes := Store(m.bytes, a, data)), a, |data|) == data
  {
    forall i | 0 <= i < |data|
      ensures Load(m.(bytes := Store(m.bytes, a, data)), a, |data|)[i] == data[i]
    {
      StoreAt(m.bytes, a, data, i);
    }
  }

  /** Loading fewer bytes gives a prefix of loading more. */
  lemma LoadPrefix(m: Memory, a: IntPtr, n: nat, k: nat)
    requires k <= n
    ensures Load(m, a, n)[..k] == Load(m, a, k)
  {
  }

  /** Storing one more byte at the end of a range extends the stored prefix. */
  lemma StoreExtend(bytes: map<nat, byte>, a: IntPtr, data: seq<byte>, i: nat)
    requires i < |data|
    ensures Store(bytes, a, data[..i])[Loc(a, i) := data[i]] == Store(bytes, a, data[..i + 1])
  {
    assert data[..i + 1][..i] == data[..i];
  }

  /** Re-protecting a range with the protection its first page had restores the
      page map exactly when the range had that one protection throughout. */
  lemma RestoreUniform(m: Memory, a: IntPtr, n: int)
    requires n > 0 && AllCommitted(m, a, n)
    ensures Protect(Protect(m.pages, a, n, ExecuteReadWrite), a, n, FirstPageProtection(m, a)) == m.pages
        <==> (forall i :: 0 <= i < n ==> m.pages[Page(Loc(a, i))] == FirstPageProtection(m, a))
  {
    var restored := Protect(Protect(m.pages, a, n, ExecuteReadWrite), a, n, FirstPageProtection(m, a));
    if forall i :: 0 <= i < n ==> m.pages[Page(Loc(a, i))] == FirstPageProtection(m, a) {
      forall q | q in m.pages
        ensures restored[q] == m.pages[q]
      {
        if q in PagesOf(a, n) {
          var i :| 0 <= i < n && Page(Loc(a, i)) == q;
        }
      }
    } else {
      var i :| 0 <= i < n && m.pages[Page(Loc(a, i))] != FirstPageProtection(m, a);
      assert Page(Loc(a, i)) in PagesOf(a, n);
      assert restored[Page(Loc(a, i))] != m.pages[Page(Loc(a, i))];
    }
  }

  /** Every page holding a byte of the `size` bytes at `address` was not
      committed in `before` and is committed in `after` with protection `p`. */
  ghost predicate FreshPages(before: Memory, after: Memory, address: IntPtr, size: nat, p: nat)
  {
    forall i :: 0 <= i < size ==>
      && Page(Loc(address, i)) !in before.pages
      && Page(Loc(address, i)) in after.pages
      && after.pages[Page(Loc(address, i))] == p
  }

  /** Every page committed in `before` is still committed in `after`, with the
      same protection. */
  ghost predicate KeepsPages(before: Memory, after: Memory)
  {
    forall q :: q in before.pages ==> q in after.pages && after.pages[q] == before.pages[q]
  }

  // ---------------------------------------------------------------------------
  // The OS primitives, on one process's memory

  class AddressSpace {
    var memory: Memory
    /** The first page the allocator has not handed out. */
    var allocTop: nat

    ghost predicate Valid()
      reads this
    {
      && 1 <= allocTop
      && allocTop * PageSize <= UserSpaceLimit
      && forall q :: q in memory.pages ==> q < allocTop
    }

    constructor (bytes: map<nat, byte>, pages: map<nat, nat>, top: nat)
      requires 1 <= top && top * PageSize <= UserSpaceLimit
      requires forall q :: q in pages ==> q < top
      ensures Valid() && memory == Memory(bytes, pages) && allocTop == top
    {
      memory := Memory(bytes, pages);
      allocTop := top;
    }

    /** ReadProcessMemory: copies `count` bytes when every one of them is
        readable and reports the count copied; otherwise fails having copied
        nothing. */
    method ReadProcessMemory(address: IntPtr, count: nat) returns (ok: bool, numRead: nat, buffer: seq<byte>)
      ensures ok <==> AllReadable(memory, address, count)
      ensures numRead == if ok then count else 0
      ensures |buffer| == count
      ensures ok ==> buffer == Load(memory, address, count)
    {
      ok := AllReadable(memory, address, count);
      if ok {
        numRead, buffer := count, Load(memory, address, count);
      } else {
        numRead, buffer := 0, seq(count, _ => 0);
      }
    }

    /** WriteProcessMemory: stores all the bytes when every one of them is
        writable and reports the count written; otherwise writes nothing and
        reports zero. */
    method WriteProcessMemory(address: IntPtr, data: seq<byte>) returns (ok: bool, numWritten: nat)
      modifies this
      ensures ok <==> AllWritable(old(memory), address, |data|)
      ensures numWritten == if ok then |data| else 0
      ensures memory == if ok then old(memory).(bytes := Store(old(memory).bytes, address, data)) else old(memory)
      ensures allocTop == old(allocTop)
    {
      ok := AllWritable(memory, address, |data|);
      if ok {
        memory := memory.(bytes := Store(memory.bytes, address, data));
        numWritten := |data|;
      } else {
        numWritten := 0;
      }
    }

    /** VirtualProtectEx: when the whole range is committed and `newProtect` is a
        protection constant, gives every page of the range that protection and
        reports the previous protection of the FIRST page; otherwise changes
        nothing and leaves the caller's zero-initialised `oldProtect` as it is. */
    method VirtualProtectEx(address: IntPtr, size: int, newProtect: nat) returns (ok: bool, oldProtect: nat)
      requires size > 0
      modifies this
      ensures ok <==> IsProtection(newProtect) && AllCommitted(old(memory), address, size)
      ensures ok ==> oldProtect == FirstPageProtection(old(memory), address)
      ensures ok ==> memory == old(memory).(pages := Protect(old(memory).pages, address, size, newProtect))
      ensures !ok ==> oldProtect == 0 && memory == old(memory)
      ensures allocTop == old(allocTop)
    {
      ok := IsProtection(newProtect) && AllCommitted(memory, address, size);
      if ok {
        assert memory.Committed(Loc(address, 0));
        oldProtect := FirstPageProtection(memory, address);
        memory := memory.(pages := Protect(memory.pages, address, size, newProtect));
      } else {
        oldProtect := 0;
      }
    }

    /** Commits whole fresh pages for `size` bytes (at least one page) with the
        given protection, or returns zero when the user address space is
        exhausted. */
    method Reserve(size: nat, protection: nat) returns (address: IntPtr)
      requires Valid()
      modifies this
      ensures Valid()
      ensures address == 0 ==> memory == old(memory)
      ensures address != 0 ==> address > 0 && address + size <= UserSpaceLimit
      ensures address != 0 ==> FreshPages(old(memory), memory, address, size, protection)
      ensures address != 0 ==> memory.bytes == old(memory).bytes
      ensures address != 0 ==> KeepsPages(old(memory), memory)
    {
      var count := if size == 0 then 1 else (size + PageSize - 1) / PageSize;
      if (allocTop + count) * PageSize > UserSpaceLimit {
        address := 0;
        return;
      }
      var first := allocTop;
      address := first * PageSize;
      var added := PageRun(first, count, protection);
      memory := memory.(pages := memory.pages + added);
      allocTop := first + count;
      forall i | 0 <= i < size
        ensures first <= Page(Loc(address, i)) < first + count
      {
        assert Loc(address, i) == address + i;
      }
    }

    /** VirtualAllocEx with MEM_COMMIT and PAGE_EXECUTE_READWRITE: a zero size is
        refused with a zero address. */
    method VirtualAllocEx(size: nat) returns (address: IntPtr)
      requires Valid()
      modifies this
      ensures Valid()
      ensures size == 0 ==> address == 0
      ensures address == 0 ==> memory == old(memory)
      ensures address != 0 ==> AllReadable(memory, address, size) && AllWritable(memory, address, size)
      ensures address != 0 ==> FreshPages(old(memory), memory, address, size, ExecuteReadWrite)
      ensures address != 0 ==> KeepsPages(old(memory), memory)
      ensures address != 0 ==> memory.bytes == old(memory).bytes
    {
      if size == 0 {
        address := 0;
      } else {
        address := Reserve(size, ExecuteReadWrite);
      }
    }

    /** The process heap behind Marshal.AllocHGlobal: read-write memory, at
        least one page even for a zero size. */
    method HeapAlloc(size: nat) returns (address: IntPtr)
      requires Valid()
      modifies this
      ensures Valid()
      ensures address == 0 ==> memory == old(memory)
      ensures address != 0 ==> AllReadable(memory, address, size) && AllWritable(memory, address, size)
      ensures address != 0 ==> FreshPages(old(memory), memory, address, size, ReadWrite)
      ensures address != 0 ==> KeepsPages(old(memory), memory)
      ensures address != 0 ==> memory.bytes == old(memory).bytes
    {
      address := Reserve(size, ReadWrite);
    }

    /** One raw byte store through a pointer. */
    method Poke(u: nat, b: byte)
      requires memory.Writable(u)
      modifies this
      ensures memory == old(memory).(bytes := old(memory).bytes[u := b])
      ensures allocTop == old(allocTop)
    {
      memory := memory.(bytes := memory.bytes[u := b]);
    }
  }
}
