/** Shared vocabulary of the model: bytes, 32-bit pointers with the wrap-around
    arithmetic of a 32-bit build, the error kinds the engine raises, and the
    failure-compatible result types every operation returns. */
module Common {

  const TwoTo31: int := 0x8000_0000
  const TwoTo32: int := 0x1_0000_0000

  type byte = b: int | 0 <= b < 0x100

  /** An IntPtr of a 32-bit build: a signed 32-bit value. */
  type IntPtr = x: int | -0x8000_0000 <= x < 0x8000_0000

  /** Exceptions the engine raises, as values. Read and write errors carry the
      address and byte count, as the engine's own exception types do. */
  datatype Error =
    | ArgumentNull(param: string)           // ArgumentNullException
    | Argument(what: string)                // ArgumentException: the parameter name, or the message when none is given
    | Overflow                              // OverflowException: an array of negative length
    | IndexOutOfRange                       // IndexOutOfRangeException
    | MemoryRead(address: IntPtr, count: int)   // BlueRainReadException
    | MemoryWrite(address: IntPtr, count: int)  // BlueRainWriteException
    | ScanRead                              // "Could not read memory in FindPattern!"
    | Engine(size: int)                     // BlueRainException: allocation refused
    | AccessViolation                       // a raw pointer dereference faulted
    | OutOfMemory                           // the process heap refused an allocation

  datatype Result<+T> = Ok(value: T) | Err(error: Error) {
    predicate IsFailure() { Err? }
    function PropagateFailure<U>(): Result<U>
      requires Err?
    {
      Err(error)
    }
    function Extract(): T
      requires Ok?
    {
      value
    }
  }

  /** A chunk handed out by Allocate: its address and the size asked for. */
  datatype AllocatedMemory = AllocatedMemory(address: IntPtr, size: nat)

  /** The result of an operation that returns nothing (a C# `void` method). */
  datatype Outcome = Done | Fail(error: Error) {
    predicate IsFailure() { Fail? }
    function PropagateFailure(): Outcome
      requires Fail?
    {
      this
    }
  }

  // ---------------------------------------------------------------------------
  // 32-bit pointer arithmetic

  /** The 32-bit two's-complement value congruent to `x`: an unchecked int or
      IntPtr computation on a 32-bit build. */
  function Wrap(x: int): (r: IntPtr)
    ensures (x - r) % TwoTo32 == 0
  {
    var r := (x + TwoTo31) % TwoTo32 - TwoTo31;
    ModOfMultiple(x - r, (x + TwoTo31) / TwoTo32);
    r
  }

  /** `p + offset` on IntPtr (unchecked, 32-bit). */
  function Add(p: IntPtr, offset: int): IntPtr
  {
    Wrap(p + offset)
  }

  /** `p - offset` on IntPtr (unchecked, 32-bit). */
  function Sub(p: IntPtr, offset: int): IntPtr
  {
    Wrap(p - offset)
  }

  /** The unsigned linear location of byte `i` of a range that starts at `a`. */
  function Loc(a: IntPtr, i: int): (u: nat)
    ensures u < TwoTo32
  {
    (a + i) % TwoTo32
  }

  lemma ModOfMultiple(z: int, q: int)
    requires z == TwoTo32 * q
    ensures z % TwoTo32 == 0
  {
    ModUnique(z, q, 0);
  }

  /** Division by 2^32 is unique: the quotient/remainder pair of `z` is determined. */
  lemma ModUnique(z: int, q: int, r: int)
    requires z == TwoTo32 * q + r && 0 <= r < TwoTo32
    ensures z % TwoTo32 == r && z / TwoTo32 == q
  {
    var d := z / TwoTo32;
    assert TwoTo32 * (q - d) == z % TwoTo32 - r;
    SmallMultiple(q - d);
  }

  /** The only multiple of 2^32 strictly between -2^32 and 2^32 is zero. */
  lemma SmallMultiple(k: int)
    requires -TwoTo32 < TwoTo32 * k < TwoTo32
    ensures k == 0
  {
  }

  /** Two values with the same residue wrap to the same IntPtr. */
  lemma WrapCongruent(x: int, y: int)
    requires (x - y) % TwoTo32 == 0
    ensures Wrap(x) == Wrap(y)
  {
    var k := (x - y) / TwoTo32;
    assert x - y == TwoTo32 * k;
    var qy := (y + TwoTo31) / TwoTo32;
    var ry := (y + TwoTo31) % TwoTo32;
    ModUnique(x + TwoTo31, qy + k, ry);
  }

  /** Wrapping a value that already fits changes nothing. */
  lemma WrapFits(x: IntPtr)
    ensures Wrap(x) == x
  {
    ModUnique(x + TwoTo31, 0, x + TwoTo31);
  }

  /** `(p + offset) - offset == p` under 32-bit wrap-around. */
  lemma AddThenSub(p: IntPtr, offset: int)
    ensures Sub(Add(p, offset), offset) == p
  {
    var a := Add(p, offset);
    WrapCongruent(a - offset, p);
    WrapFits(p);
  }

  /** `(p - offset) + offset == p` under 32-bit wrap-around. */
  lemma SubThenAdd(p: IntPtr, offset: int)
    ensures Add(Sub(p, offset), offset) == p
  {
    var s := Sub(p, offset);
    WrapCongruent(s + offset, p);
    WrapFits(p);
  }

  /** Adding two offsets one after the other is adding their sum. */
  lemma AddAdd(p: IntPtr, x: int, y: int)
    ensures Add(Add(p, x), y) == Add(p, x + y)
  {
    WrapCongruent(Add(p, x) + y, p + x + y);
  }

  /** The locations of a range of at most 2^32 bytes are pairwise distinct. */
  lemma LocInjective(a: IntPtr, i: int, j: int)
    requires 0 <= i < TwoTo32 && 0 <= j < TwoTo32 && i != j
    ensures Loc(a, i) != Loc(a, j)
  {
    if Loc(a, i) == Loc(a, j) {
      var qi := (a + i) / TwoTo32;
      var qj := (a + j) / TwoTo32;
      SmallMultiple(qi - qj);
    }
  }

  // ---------------------------------------------------------------------------
  // Pointer-sized values in memory (little-endian, 4 bytes on a 32-bit build)

  const PointerSize: nat := 4

  function DecodePointer(b: seq<byte>): (p: IntPtr)
    requires |b| == PointerSize
  {
    Wrap(b[0] as int + 0x100 * b[1] as int + 0x1_0000 * b[2] as int + 0x100_0000 * b[3] as int)
  }

  function EncodePointer(p: IntPtr): (b: seq<byte>)
    ensures |b| == PointerSize
  {
    var u0 := p % TwoTo32;
    var u1 := u0 / 0x100;
    var u2 := u1 / 0x100;
    var u3 := u2 / 0x100;
    [u0 % 0x100, u1 % 0x100, u2 % 0x100, u3]
  }

  /** A pointer written to memory reads back as the same pointer. */
  lemma PointerRoundTrip(p: IntPtr)
    ensures DecodePointer(EncodePointer(p)) == p
  {
    var u0 := p % TwoTo32;
    var u1 := u0 / 0x100;
    var u2 := u1 / 0x100;
    var u3 := u2 / 0x100;
    assert u0 == u0 % 0x100 + 0x100 * u1;
    assert u1 == u1 % 0x100 + 0x100 * u2;
    assert u2 == u2 % 0x100 + 0x100 * u3;
    var b := EncodePointer(p);
    assert b[0] as int + 0x100 * b[1] as int + 0x1_0000 * b[2] as int + 0x100_0000 * b[3] as int == u0;
    var q := (p - u0) / TwoTo32;
    assert p - u0 == TwoTo32 * q;
    WrapCongruent(u0, p);
    WrapFits(p);
  }

  // ---------------------------------------------------------------------------
  // Sequential element reads: the first failing element aborts the whole read

  /** The outcome of computing elements 0 .. n-1 in order with `f`, stopping at
      the first failure (a `for` loop that fills `ret[i]` and lets an exception
      escape). */
  function Collect<T>(n: nat, f: nat -> Result<T>): Result<seq<T>>
  {
    if n == 0 then Ok([])
    else
      match Collect(n - 1, f)
      case Err(e) => Err(e)
      case Ok(init) =>
        match f(n - 1)
        case Err(e) => Err(e)
        case Ok(x) => Ok(init + [x])
  }

  /** A successful collection has `n` elements and element `i` is `f(i)`. */
  lemma {:induction false} CollectElements<T>(n: nat, f: nat -> Result<T>)
    requires Collect(n, f).Ok?
    ensures |Collect(n, f).value| == n
    ensures forall i :: 0 <= i < n ==> f(i) == Ok(Collect(n, f).value[i])
  {
    if n > 0 {
      CollectElements(n - 1, f);
    }
  }

  /** A collection fails exactly when some element fails, and then with the
      error of the FIRST failing element. */
  lemma {:induction false} CollectFailsAtFirst<T>(n: nat, f: nat -> Result<T>, k: nat)
    requires k < n && f(k).Err?
    requires forall i :: 0 <= i < k ==> f(i).Ok?
    ensures Collect(n, f) == Err(f(k).error)
  {
    if n - 1 > k {
      CollectFailsAtFirst(n - 1, f, k);
    } else {
      CollectAllOk(k, f);
    }
  }

  /** When every element succeeds, so does the collection. */
  lemma {:induction false} CollectAllOk<T>(n: nat, f: nat -> Result<T>)
    requires forall i :: 0 <= i < n ==> f(i).Ok?
    ensures Collect(n, f).Ok?
  {
    if n > 0 {
      CollectAllOk(n - 1, f);
    }
  }

  /** Once a prefix has failed, every longer collection fails the same way. */
  lemma {:induction false} CollectStaysFailed<T>(k: nat, n: nat, f: nat -> Result<T>)
    requires k <= n && Collect(k, f).Err?
    ensures Collect(n, f) == Collect(k, f)
  {
    if n > k {
      CollectStaysFailed(k, n - 1, f);
    }
  }
}
