# BlueRain address-space engine in Dafny

BlueRain reads and writes the memory of a Windows process. The process may be
another one (`ExternalProcessMemory`, through ReadProcessMemory,
WriteProcessMemory, VirtualProtectEx and VirtualAllocEx) or the caller's own
(`LocalProcessMemory`, through raw pointers). Both backends derive from the
abstract `NativeMemory`. That base class holds the main module's base address,
translates between relative and absolute addresses, and implements ReadString
and WriteString once, against whichever ReadBytes and WriteBytes the backend
supplies. Above it sits a `PatternScanner` that finds a byte signature under a
mask. Below it sits `MarshalCache<T>`, which fixes the byte size of every typed
read and write and decides whether a type can be copied raw.

The model is a 32-bit build: an IntPtr is a signed 32-bit value, and pointer
arithmetic wraps modulo 2^32. The operating system is a value
`AddressSpace.Memory`, a byte map plus a map from committed 4096-byte pages to
their PAGE_* protection. It is held by the class `AddressSpace.AddressSpace`.
That class's methods are the OS primitives, each with its effect stated.

Each backend operation is written twice:

- as a function of a memory snapshot and the base address (`ReadBytesIn`,
  `WriteBytesIn`, ...), which states what the operation does;
- as a method of the backend class, which follows the source's statements and
  loops and is proved equal to that function.

The properties are proved about the functions. A void C# method returns an
`Outcome`. A failing C# method returns the `Error` its exception stands for.
Typed values are their `Size(T)`-byte native images. The abstract base's
dispatch to the two overrides is the datatype `Backends.Backend`.

Where the code does not do what its own signatures and neighbours suggest,
the model follows the code:

- The out-of-process WriteBytes takes an `isRelative` parameter
  (src/BlueRain/ExternalProcessMemory.cs:142), as ReadBytes does, but unlike
  ReadBytes (lines 120-121) it never translates the address.
- The chain write adds the last offset before writing (line 301); the chain
  read (line 241) does not, and reads T at the last pointer itself.
- After a write, every page of the range gets the protection VirtualProtectEx
  reported (lines 156-159), which is the protection of the range's first page
  only.
- The chain write reads its intermediate pointers as absolute addresses
  (lines 296-299), whatever `isRelative` says.
- A hop whose address sums to 0 fails the argument check of Read<T>
  (line 179) with an argument error, not a read error.

The class `MarshalCache.LayoutCache` models the per-type caching of the
static constructor on its own. The backends use the layout rule directly,
through `Size` and `TypeRequiresMarshal`, which is what the cache returns.

## Model

| member | source | states |
|---|---|---|
| `PatternScanner.FindPatternInternal` | src/BlueRain/PatternScanner.cs:60-90 | An empty buffer fails with an argument-null error on `buffer`. Otherwise the result is `Scan`: the first window start below `buffer.Length - patternLength` that matches under the mask, or 0. Every index the nested loop touches is in bounds, and the early break does not change the result. |
| `PatternScanner.PatternScanner.FindPattern` | src/BlueRain/PatternScanner.cs:39-58 | Equals `FindPatternIn` on the backend's memory and base address: the argument checks, one absolute bulk read, an empty read as a read error, 0 for "not found", otherwise `startAddress + offset` with 32-bit wrap. |
| `PatternScanner.PositionMatches` | src/BlueRain/PatternScanner.cs:75-76 | A mask position accepts a byte exactly when the loop's mismatch test is false: 'x' with a different byte and '!' with an equal byte are the only rejections. Any other mask character accepts every byte. |
| `PatternScanner.MatchesAt` | src/BlueRain/PatternScanner.cs:72-81 | A match lies inside the buffer. Under an all-'x' mask, a window matches exactly when it equals the pattern; under a mask with no 'x' and no '!', every window in range matches. |
| `PatternScanner.FirstMatchIsLeast` | src/BlueRain/PatternScanner.cs:70-86 | The search over all windows returns the least window start at which every mask position accepts its byte ('x' equal, '!' different, anything else accepted), and returns nothing exactly when no window matches. |
| `PatternScanner.ScanIsFirstMatchBelowLastWindow` | src/BlueRain/PatternScanner.cs:67-89 | The search as written equals the search over all windows, except that a first match in the last window, or no match at all, gives 0. |
| `PatternScanner.ScanResult` | src/BlueRain/PatternScanner.cs:70-89 | A non-zero result `r` satisfies `1 <= r < buffer.Length - patternLength`, matches, and no earlier window matches. A zero result means that window 0 matches or that no examined window does. |
| `PatternScanner.LongPatternNotFound` | src/BlueRain/PatternScanner.cs:67-70 | A pattern at least as long as the buffer gives 0. |
| `PatternScanner.LastWindowMissedExample` | src/BlueRain/PatternScanner.cs:68-70 | `[0x02]` ending `[0x01, 0x02]` is reported as 0, although the last window matches. |
| `PatternScanner.OffsetZeroMissedExample` | src/BlueRain/PatternScanner.cs:54-55 | `[0x07]` at the start of `[0x07, 0x08, 0x09]` yields 0, the not-found value. |
| `PatternScanner.MaskExamples` | src/BlueRain/PatternScanner.cs:75-76 | `[0x20, 0x30]` under "xx" and `[0x20, 0xFF]` under "x!" are both found at offset 1 of `[0x10, 0x20, 0x30, 0x40]`. |
| `PatternScanner.ArgumentChecksComeFirst` | src/BlueRain/PatternScanner.cs:41-45 | An empty pattern gives an argument-null error and a pattern/mask length mismatch gives an argument error, whatever memory holds. |
| `PatternScanner.ReadFailures` | src/BlueRain/PatternScanner.cs:47-50 | A failed bulk read passes its error on, and an empty buffer gives the scan read error. |
| `PatternScanner.FindPatternAnswer` | src/BlueRain/PatternScanner.cs:52-57 | Given the bytes read, the result is `startAddress + i` for the first matching window `i` when `1 <= i < buffer.Length - patternLength`, and 0 otherwise. |
| `PatternScanner.LocalEmptyRegion` | src/BlueRain/PatternScanner.cs:47-50 | With the in-process backend, a region of size 0 reads as an empty buffer and gives the scan read error. |
| `NativeMemory.NativeMemory.SetBaseAddress` | src/BlueRain/NativeMemory.cs:46-54 | Sets both stored forms of the base address to the new value, which keeps them equal. |
| `NativeMemory.NativeMemory.ToRelative` | src/BlueRain/NativeMemory.cs:79-84 | A zero address is rejected with an argument error, and only a zero address is. Otherwise the result added to the base gives the address back. |
| `NativeMemory.NativeMemory.ToAbsolute` | src/BlueRain/NativeMemory.cs:93-97 | Accepts every input. The result minus the base is the relative address, and `ToAbsolute(0)` is the base. |
| `NativeMemory.RelativeRoundTrip` | src/BlueRain/NativeMemory.cs:79-97 | `ToRelative(ToAbsolute(r)) == r` whenever `ToAbsolute(r)` is not zero. |
| `NativeMemory.AbsoluteRoundTrip` | src/BlueRain/NativeMemory.cs:79-97 | `ToAbsolute(ToRelative(a)) == a` for every non-zero `a`. |
| `NativeMemory.RelativeOfBasePlus0x5000` | src/BlueRain.Tests/ExternalMemoryTests.cs:115-120 | `ToRelative(BaseAddress + 0x5000) == 0x5000`. |
| `NativeMemory.Decode` | src/BlueRain/NativeMemory.cs:131 | One character per byte, with the byte's code. |
| `NativeMemory.Encode` | src/BlueRain/NativeMemory.cs:168 | One byte per character. A character below 256 becomes its own code. |
| `NativeMemory.TruncateAtNul` | src/BlueRain/NativeMemory.cs:132-135 | The result is a prefix of the text without NUL, and is shorter only when a NUL follows it. |
| `NativeMemory.TextOf` | src/BlueRain/NativeMemory.cs:130-136 | The text ReadString returns for a buffer holds no NUL and is no longer than the buffer. |
| `NativeMemory.Terminated` | src/BlueRain/NativeMemory.cs:163-166 | An empty value fails, as indexing `value[Length - 1]` does. Otherwise the value is extended to end in NUL, by one character exactly when it did not already end in one. |
| `NativeMemory.BytesToWrite` | src/BlueRain/NativeMemory.cs:163-168 | Fails exactly for an empty value. |
| `NativeMemory.TruncateAtFirstNul` | src/BlueRain/NativeMemory.cs:132-135 | When the first NUL is at index `k`, the truncation is the first `k` characters. |
| `NativeMemory.TextOfTerminated` | src/BlueRain/NativeMemory.cs:130-136 | A NUL-free representable string whose terminated encoding starts the buffer is the text read back. |
| `NativeMemory.TestStringRoundTrip` | src/BlueRain.Tests/ExternalMemoryTests.cs:52-61 | "test string" written with its terminator and read back with a 512-byte maximum is "test string". |
| `Backends.ReadBytesBy` | src/BlueRain/NativeMemory.cs:180 | The abstract ReadBytes, resolved to the backend's override, returns exactly `count` bytes when it succeeds. |
| `Backends.ReadBytes` | src/BlueRain/NativeMemory.cs:180 | Dispatches to the override of the backend at hand and returns what `ReadBytesBy` specifies for it. |
| `Backends.WriteBytes` | src/BlueRain/NativeMemory.cs:189 | Dispatches to the override of the backend at hand and leaves the memory `WriteBytesBy` specifies for it. |
| `Backends.ReadString` | src/BlueRain/NativeMemory.cs:124-137 | Equals `ReadStringIn`: a zero address is rejected, `maximumLength` bytes are read, and the text is cut at the first NUL. |
| `Backends.WriteString` | src/BlueRain/NativeMemory.cs:158-169 | Equals `WriteStringIn`: a zero address is rejected, and the terminated encoding is written with the backend's WriteBytes. |
| `Backends.ReadStringOutcome` | src/BlueRain/NativeMemory.cs:124-137 | A zero address gives an argument error. Otherwise ReadString succeeds exactly when reading `maximumLength` bytes does. The result holds no NUL, is at most `maximumLength` long, and is a prefix of the decoded bytes. |
| `Backends.WriteStringBytes` | src/BlueRain/NativeMemory.cs:158-169 | An empty value fails before anything is written. Otherwise the bytes written are the encoding of the value with one NUL appended, unless it already ends in NUL. |
| `Backends.StringRoundTrip` | src/BlueRain.Tests/ExternalMemoryTests.cs:52-61 | On either backend, a NUL-free string written with WriteString and read with a larger maximum length is read back unchanged. On the out-of-process backend this holds at absolute addresses. |
| `ExternalProcessMemory.ReadBytesIn` | src/BlueRain/ExternalProcessMemory.cs:115-135 | A successful read returns exactly `count` bytes. |
| `ExternalProcessMemory.ReadIn` | src/BlueRain/ExternalProcessMemory.cs:177-187 | A successful typed read returns exactly `Size(T)` bytes. |
| `ExternalProcessMemory.ExternalProcessMemory.ReadBytes` | src/BlueRain/ExternalProcessMemory.cs:115-135 | Equals `ReadBytesIn`: check count, then address, translate, call ReadProcessMemory, and fail unless the call succeeds with `numRead == count`. |
| `ExternalProcessMemory.ExternalProcessMemory.WriteBytes` | src/BlueRain/ExternalProcessMemory.cs:146-165 | The protect, write, re-protect sequence leaves exactly the memory and outcome `WriteBytesIn` gives, and allocates nothing. |
| `ExternalProcessMemory.ExternalProcessMemory.Read` | src/BlueRain/ExternalProcessMemory.cs:177-187 | Equals `ReadIn`: a zero address is rejected, then `Size(T)` bytes are read. |
| `ExternalProcessMemory.ExternalProcessMemory.ReadPointer` | src/BlueRain/ExternalProcessMemory.cs:236 | Read<IntPtr>: four bytes read and decoded little-endian. |
| `ExternalProcessMemory.ExternalProcessMemory.ReadArray` | src/BlueRain/ExternalProcessMemory.cs:200-213 | The loop filling `ret[i]` returns what `ReadArrayIn` specifies: elements in order, and the first failure aborts. |
| `ExternalProcessMemory.ExternalProcessMemory.Follow` | src/BlueRain/ExternalProcessMemory.cs:238-239 | The loop replacing `tempPtr` by the pointer read at `tempPtr + offset` computes `FollowIn`. |
| `ExternalProcessMemory.ExternalProcessMemory.ReadChain` | src/BlueRain/ExternalProcessMemory.cs:227-242 | Equals `ReadChainIn`, the chain read as written. |
| `ExternalProcessMemory.ExternalProcessMemory.Write` | src/BlueRain/ExternalProcessMemory.cs:255-268 | A zero address is rejected. Otherwise the `Size(T)`-byte image goes to WriteBytes. |
| `ExternalProcessMemory.ExternalProcessMemory.WriteChain` | src/BlueRain/ExternalProcessMemory.cs:283-302 | Equals `WriteChainIn`: pointer reads at absolute addresses, then a write at the last pointer plus the last offset. |
| `ExternalProcessMemory.ExternalProcessMemory.Allocate` | src/BlueRain/ExternalProcessMemory.cs:54-75 | On success the chunk has a non-zero address and the requested size, and is readable and writable. Its pages were not committed before and now have PAGE_EXECUTE_READWRITE; every page committed before keeps its protection. On failure the error carries the size and memory is unchanged. A zero size always fails. |
| `ExternalProcessMemory.ReadBytesOutcome` | src/BlueRain/ExternalProcessMemory.cs:115-135 | A read succeeds exactly when the count is positive, the address is non-zero and the translated range is readable. It then returns those bytes. A zero count, a zero address and an unreadable range each give their own error; the last carries the absolute address and the count. |
| `ExternalProcessMemory.RelativeReadIsAbsoluteRead` | src/BlueRain/ExternalProcessMemory.cs:120-121 | A relative read is the absolute read at `address + base`. |
| `ExternalProcessMemory.WriteBytesOutcome` | src/BlueRain/ExternalProcessMemory.cs:146-165 | A write succeeds exactly when the address is non-zero, the payload is non-empty and the range is committed. A failure leaves memory unchanged. |
| `ExternalProcessMemory.WriteBytesFrame` | src/BlueRain/ExternalProcessMemory.cs:156-159 | A write changes no byte outside its range and commits or releases no page. |
| `ExternalProcessMemory.WriteBytesRestoresProtection` | src/BlueRain/ExternalProcessMemory.cs:156-159 | After a write every page of the range has its first page's old protection. So the protection is as before exactly when the range had one protection throughout. |
| `ExternalProcessMemory.WriteThenReadBytes` | src/BlueRain/ExternalProcessMemory.cs:115-165 | Bytes written to a range whose first page allows reading are read back unchanged from the same absolute address. |
| `ExternalProcessMemory.WriteThenRead` | src/BlueRain/ExternalProcessMemory.cs:255-268 | Write<T> then Read<T> at the same absolute address gives the value's image back. |
| `ExternalProcessMemory.ReadTransfersSize` | src/BlueRain/ExternalProcessMemory.cs:181-183 | A typed read is exactly the `Size(T)` bytes at the translated address, and `Size(T)` is positive. |
| `ExternalProcessMemory.ReadArrayElements` | src/BlueRain/ExternalProcessMemory.cs:204-212 | A successful array read has `count` elements, and element `i` is the typed read at `address + i * Size(T)`. |
| `ExternalProcessMemory.ReadArrayFirstFailure` | src/BlueRain/ExternalProcessMemory.cs:209-210 | The array read fails with the error of the first element read that fails. |
| `ExternalProcessMemory.ReadChainDropsLastOffset` | src/BlueRain/ExternalProcessMemory.cs:236-241 | The chain read as written is the intended chain read with the last offset replaced by 0. |
| `ExternalProcessMemory.ReadChainIgnoresOffsetExample` | src/BlueRain/ExternalProcessMemory.cs:238-241 | `Read<byte>(false, 0x1000, 4)` reads at the pointer found at 0x1000 and not 4 bytes further on. |
| `ExternalProcessMemory.ReadChainFixedTwoSteps` | src/BlueRain/ExternalProcessMemory.cs:227-242 | The intended two-address chain read dereferences `addresses[0]` and reads T at that pointer plus the offset. |
| `ExternalProcessMemory.FollowAbsoluteIgnoresBase` | src/BlueRain/ExternalProcessMemory.cs:296-299 | Pointer hops read as absolute do not depend on the base address. |
| `ExternalProcessMemory.WriteChainIgnoresBase` | src/BlueRain/ExternalProcessMemory.cs:283-302 | The chain write's outcome and effect do not depend on the base address. |
| `ExternalProcessMemory.WriteChainReadErrorWritesNothing` | src/BlueRain/ExternalProcessMemory.cs:296-301 | A chain write that ends in a read error leaves memory unchanged. |
| `ExternalProcessMemory.WriteChainFirstReadFails` | src/BlueRain/ExternalProcessMemory.cs:296 | A chain write whose first pointer read fails ends with that read error and writes nothing. |
| `ExternalProcessMemory.PointerReadError` | src/BlueRain/ExternalProcessMemory.cs:177-183 | A pointer read at 0 fails the argument check. At any other address it fails exactly when the four translated bytes are not readable, and then with a read error carrying that absolute address and 4. |
| `ExternalProcessMemory.FollowFailsAtHop` | src/BlueRain/ExternalProcessMemory.cs:238-239 | If the hops before hop `k` reach `q` and the pointer read at `q + offsets[k]` fails, following the whole offset list fails with that error. |
| `ExternalProcessMemory.ChainHops` | src/BlueRain/ExternalProcessMemory.cs:236-239 | The pointer hops of a chain are the hops over every address but the last, starting from 0, the first one reading at `addresses[0]`. |
| `ExternalProcessMemory.ReadChainHopFails` | src/BlueRain/ExternalProcessMemory.cs:236-241 | A chain read whose hop `k` fails, at any position, ends with that hop's error. |
| `ExternalProcessMemory.WriteChainHopFails` | src/BlueRain/ExternalProcessMemory.cs:296-301 | A chain write whose hop `k` fails, at any position, ends with that hop's error and leaves memory unchanged. |
| `ExternalProcessMemory.WriteMultipleValsFails` | src/BlueRain.Tests/ExternalMemoryTests.cs:88-96 | With `x = 10` readable at `&x`, `Write(true, 1, &x, 0, 0)` reads 10 at `&x`, fails to read at `10 + 0` with a read error there, and writes nothing. |
| `ExternalProcessMemory.RelativeWriteThenReadFixed` | src/BlueRain/ExternalProcessMemory.cs:146-159 | With the translation added, a relative write followed by a relative read of the same address gives the bytes back. |
| `ExternalProcessMemory.RelativeWriteMissesExample` | src/BlueRain/ExternalProcessMemory.cs:146-159 | As written, with base 0x1000, a relative write at 0x1000 stores at 0x1000, and a relative read at 0x1000 then sees the old 0 at 0x2000. |
| `LocalProcessMemory.ReadBytesIn` | src/BlueRain/LocalProcessMemory.cs:39-51 | A successful read returns exactly `count` bytes. |
| `LocalProcessMemory.FirstUnwritable` | src/BlueRain/LocalProcessMemory.cs:64-66 | The index at which the byte-store loop faults: every earlier byte is writable, and the byte at that index is not unless it is the end. |
| `LocalProcessMemory.FirstUnwritableFrom` | src/BlueRain/LocalProcessMemory.cs:65-66 | The same search, started from an index whose prefix is writable. |
| `LocalProcessMemory.ReadIn` | src/BlueRain/LocalProcessMemory.cs:76-82 | A successful typed read returns exactly `Size(T)` bytes. |
| `LocalProcessMemory.LocalProcessMemory.ReadBytes` | src/BlueRain/LocalProcessMemory.cs:39-51 | The loop copying `ptr[i]` into `buffer[i]` returns `ReadBytesIn`: the `count` bytes at the translated address, or a fault at the first unreadable one. It changes nothing. |
| `LocalProcessMemory.LocalProcessMemory.WriteBytes` | src/BlueRain/LocalProcessMemory.cs:59-67 | The loop storing `ptr[i]` leaves the memory `WriteBytesIn` gives: the bytes before the first unwritable one are stored, then it faults. |
| `LocalProcessMemory.LocalProcessMemory.ReadInternal` | src/BlueRain/LocalProcessMemory.cs:119-135 | Takes the raw-copy path exactly when the type needs no marshalling. Either path returns the `Size(T)` bytes at the address. |
| `LocalProcessMemory.LocalProcessMemory.Read` | src/BlueRain/LocalProcessMemory.cs:76-82 | Translates once, then reads as ReadInternal does. |
| `LocalProcessMemory.LocalProcessMemory.ReadArray` | src/BlueRain/LocalProcessMemory.cs:92-102 | The loop filling `ret[i]` returns `ReadArrayIn`, the array read as written. |
| `LocalProcessMemory.LocalProcessMemory.Write` | src/BlueRain/LocalProcessMemory.cs:111-117 | Stores the `Size(T)`-byte image at the translated address, as WriteBytes does. |
| `LocalProcessMemory.LocalProcessMemory.Allocate` | src/BlueRain/LocalProcessMemory.cs:26-30 | On success the chunk has a non-zero address and the requested size, and is readable and writable. Its pages were not committed before and are now read-write; every page committed before keeps its protection. A size of 2^31 or more becomes negative under `(int) size` and fails, as does a request the heap refuses. |
| `LocalProcessMemory.WrapOfNat` | src/BlueRain/LocalProcessMemory.cs:28 | `(int) size` keeps a size below 2^31 and subtracts 2^32 from a larger one. |
| `LocalProcessMemory.ZeroCountReadsNothing` | src/BlueRain/LocalProcessMemory.cs:39-51 | With no argument checks, a zero count reads an empty buffer at any address, zero included. |
| `LocalProcessMemory.ReadBytesOutcome` | src/BlueRain/LocalProcessMemory.cs:39-51 | A read succeeds exactly when the count is not negative and the translated range is readable. Then `buffer[i]` is the byte at `address + i`. Otherwise a non-negative count gives an access violation. |
| `LocalProcessMemory.WriteBytesEffect` | src/BlueRain/LocalProcessMemory.cs:59-67 | A write succeeds exactly when the translated range is writable. Byte `i` holds `bytes[i]` for every `i` before the fault. Every other byte and every page is unchanged. |
| `LocalProcessMemory.WriteThenReadBytes` | src/BlueRain.Tests/LocalMemoryTests.cs:14-24 | Bytes written and then read with the same count, address and `isRelative` come back unchanged. |
| `LocalProcessMemory.RelativeIsTranslatedOnce` | src/BlueRain/LocalProcessMemory.cs:59-82 | A relative typed read and a relative byte write touch `address + base`, with the base added once. |
| `LocalProcessMemory.BuiltInTypesCopyRaw` | src/BlueRain/LocalProcessMemory.cs:123-131 | Built-in types and enums take the raw-copy path. |
| `LocalProcessMemory.ReadArrayAddsBaseTwice` | src/BlueRain/LocalProcessMemory.cs:94-99 | As written, element `i` of a relative array read is read at `address + 2 * base + Size(T) * i`. |
| `LocalProcessMemory.ReadArrayFixedElements` | src/BlueRain/LocalProcessMemory.cs:92-102 | In the intended array read, element `i` is the single typed read at `address + Size(T) * i` with the caller's `isRelative`. |
| `LocalProcessMemory.ReadArrayBaseTwiceExample` | src/BlueRain/LocalProcessMemory.cs:94-99 | With base 0x1000, a single relative read of one byte at 0x1000 succeeds. The one-element array read as written faults at 0x3000. The intended one returns that byte. |
| `MarshalCache.Derive` | src/BlueRain/Common/MarshalCache.cs:35-64 | The real type is never an enum. The size is what the marshaller reports for T exactly when T is not bool. The type code is the real type's and T's own. Only a struct can require the marshaller. |
| `MarshalCache.MarshalSizeOf` | src/BlueRain/Common/MarshalCache.cs:48-54 | A built-in type or enum marshals to 1, 2, 4, 8 or 16 bytes; IntPtr and bool to 4. |
| `MarshalCache.AnyMarshalAsExists` | src/BlueRain/Common/MarshalCache.cs:62-64 | The `Any` query holds exactly when some field carries a MarshalAs attribute. |
| `MarshalCache.BoolLayout` | src/BlueRain/Common/MarshalCache.cs:40-44 | A bool is 1 byte, not the marshaller's 4, and is its own real type with code Boolean. |
| `MarshalCache.EnumLayout` | src/BlueRain/Common/MarshalCache.cs:45-51 | An enum takes its size, real type and type code from its underlying type, and is laid out like that type. |
| `MarshalCache.Int32EnumIsFourBytes` | src/BlueRain.Tests/ExternalMemoryTests.cs:122-130 | An int-backed enum is 4 bytes. |
| `MarshalCache.NaturalLayout` | src/BlueRain/Common/MarshalCache.cs:52-56 | Any other type has its marshalled size, is its own real type and keeps its own type code. |
| `MarshalCache.RequiresMarshalIffMarshalAs` | src/BlueRain/Common/MarshalCache.cs:62-64 | A type needs the marshaller exactly when some instance field of its real type carries MarshalAs. Built-in types and enums never do. |
| `MarshalCache.RealTypeIsStable` | src/BlueRain/Common/MarshalCache.cs:35-64 | Deriving the layout of the real type again gives the same size, real type and marshalling decision. |
| `MarshalCache.LayoutCache.Get` | src/BlueRain/Common/MarshalCache.cs:35-76 | Returns the derived layout. It computes and stores the layout only the first time a type is seen, and never changes a stored one. |
| `AddressSpace.AddressSpace.ReadProcessMemory` | src/BlueRain/ExternalProcessMemory.cs:86-88 | Copies all `count` bytes and reports `count` exactly when the range is readable. Otherwise it reports 0. |
| `AddressSpace.AddressSpace.WriteProcessMemory` | src/BlueRain/ExternalProcessMemory.cs:90-92 | Stores all the bytes and reports their number exactly when the range is writable. Otherwise it writes nothing and reports 0. |
| `AddressSpace.AddressSpace.VirtualProtectEx` | src/BlueRain/ExternalProcessMemory.cs:94-96 | On a committed range, gives every page of the range the new protection and reports the old protection of the first page. Otherwise it changes nothing. |
| `AddressSpace.AddressSpace.VirtualAllocEx` | src/BlueRain/ExternalProcessMemory.cs:98-100 | Commits pages not committed before for `size` bytes, with PAGE_EXECUTE_READWRITE, or returns 0, always for a zero size. Every page committed before keeps its protection, and no byte changes. |
| `AddressSpace.AddressSpace.HeapAlloc` | src/BlueRain/LocalProcessMemory.cs:28 | Returns a chunk of `size` bytes on pages not committed before, now read-write, or 0 with nothing changed. Every page committed before keeps its protection, and no byte changes. |
| `AddressSpace.AddressSpace.Poke` | src/BlueRain/LocalProcessMemory.cs:65-66 | A store through a pointer to a writable byte changes that byte only, and no page. |
| `AddressSpace.RestoreUniform` | src/BlueRain/ExternalProcessMemory.cs:156-159 | Re-protecting a range with its first page's old protection restores the page map exactly when the range had one protection throughout. |
| `Common.PointerRoundTrip` | src/BlueRain/ExternalProcessMemory.cs:236 | A pointer stored as four little-endian bytes decodes to itself. |
| `Common.CollectFailsAtFirst` | src/BlueRain/ExternalProcessMemory.cs:209-210 | An element-by-element read fails with the error of the first failing element. |
| `Common.CollectElements` | src/BlueRain/ExternalProcessMemory.cs:209-210 | A successful element-by-element read has `n` elements, and element `i` is the `i`-th read's value. |

## Left out

- The P/Invoke calls (OpenProcess, OpenThread, RtlMoveMemory, the allocator and the handles). They are replaced by the `AddressSpace` methods, each of which states its effect on an abstract memory. ReadProcessMemory and WriteProcessMemory are all-or-nothing here; a partial copy by the OS is not modelled.
- Marshal.PtrToStructure, StructureToPtr and SizeOf. Typed values are their `Size(T)`-byte images, and the sizes are a table of the 32-bit native sizes. Decoding those bytes into C# values, floating point included, is left out.
- The DynamicMethod that builds `GetUnsafePtr`. It is runtime code generation; the raw-copy path is modelled by its effect.
- `Task`-returning signatures. Every operation is synchronous, as the overrides are.
- The `Process.Exited` hook, `OnExited`, `Dispose` and `LeaveDebugMode`. They are event and process plumbing.
- Injector, InjectedModule, the handle wrappers and AllocatedMemory's own surface. AllocatedMemory is a stub and is not part of this model; `Allocate` returns just its address and size.
- `Requires.NotNull` checks on encoding, memory, bytes and buffer. The Dafny types rule out null. `Requires.NotEqual` and `Requires.Condition` become `Argument` errors naming the parameter.
- Text encodings. ReadString and WriteString use a single-byte encoding (byte b is character b), which agrees with UTF-8 on ASCII text. Multi-byte encodings are not modelled.
- Exception message formatting. Errors are constructors carrying the address and the count.
- The tests on `Vector3` floats and `MultipleReads`. The two test files disagree on `MultipleReads`.
- The in-process backend has no chain read or chain write in the source shown, so none is modelled for it.
- The contents of a fresh chunk. A new chunk reads whatever the byte map already held at its addresses; the zero fill VirtualAllocEx performs is not promised. The OS's actual placement of chunks is not modelled either.

## Findings

| source | as written | input that shows it | evidently intended | confidence | as-written member | corrected member |
|---|---|---|---|---|---|---|
| src/BlueRain/PatternScanner.cs:68-70 | window starts run `i < buffer.Length - patternLength` | pattern `[0x02]`, mask "x", buffer `[0x01, 0x02]`: not found | every window start up to `buffer.Length - patternLength` is tried | not executed | `PatternScanner.LastWindowMissedExample` (about `PatternScanner.Scan`) | `PatternScanner.FirstMatchIsLeast` (about `PatternScanner.FirstMatch`) |
| src/BlueRain/PatternScanner.cs:54-55 | a match at offset 0 returns `IntPtr.Zero`, the not-found value | pattern `[0x07]`, mask "x", buffer `[0x07, 0x08, 0x09]`: not found | a match at offset 0 is reported as `startAddress` | not executed | `PatternScanner.OffsetZeroMissedExample` (about `PatternScanner.Scan`) | `PatternScanner.FirstMatchIsLeast` (about `PatternScanner.FirstMatch`) |
| src/BlueRain/LocalProcessMemory.cs:94-99 | the array read translates the address, then passes `isRelative` to each element read | base 0x1000, `Read<byte>(0x1000, 1, true)` reads 0x3000 and faults, while `Read<byte>(0x1000, true)` reads 0x2000 | the base is added once | not executed | `LocalProcessMemory.ReadArrayBaseTwiceExample` (about `LocalProcessMemory.ReadArrayIn`) | `LocalProcessMemory.ReadArrayFixedElements` (about `LocalProcessMemory.ReadArrayFixedIn`) |
| src/BlueRain/ExternalProcessMemory.cs:236-241 | the chain read never adds the last offset | pointer 0x2000 at 0x1000, 7 at 0x2004: `Read<byte>(false, 0x1000, 4)` gives 0 | T is read at the last pointer plus the last offset, as the chain write does | not executed | `ExternalProcessMemory.ReadChainIgnoresOffsetExample` (about `ExternalProcessMemory.ReadChainIn`) | `ExternalProcessMemory.ReadChainFixedTwoSteps` (about `ExternalProcessMemory.ReadChainFixedIn`) |
| src/BlueRain/ExternalProcessMemory.cs:146-159 | WriteBytes never applies `isRelative` | base 0x1000: `WriteBytes(0x1000, [1], true)` writes 0x1000, and `ReadBytes(0x1000, 1, true)` then reads 0 from 0x2000 | a relative address is made absolute, as ReadBytes does | not executed (medium: the RelativeWrite test expects a write error at relative 0x1000, which may rely on the address not being translated) | `ExternalProcessMemory.RelativeWriteMissesExample` (about `ExternalProcessMemory.WriteBytesIn`) | `ExternalProcessMemory.RelativeWriteThenReadFixed` (about `ExternalProcessMemory.WriteBytesTranslatedIn`) |
