/** The part of the abstract NativeMemory base class that holds state and pure
    logic: the cached main-module base address with relative/absolute address
    translation, and the text conversions ReadString and WriteString apply around
    one byte read or write. */
module NativeMemory {
  import opened Common

  /** The base-class state every backend carries: the main module's base
      address, stored as the IntPtr API value and as the 32-bit copy the
      address arithmetic uses. */
  class NativeMemory {
    var baseAddress: IntPtr
    var fastBaseAddress: IntPtr

    /** Both stored forms describe the same address (IntPtr.ToInt32 is the
        identity on a 32-bit build). */
    ghost predicate Valid()
      reads this
    {
      fastBaseAddress == baseAddress
    }

    constructor ()
      ensures Valid() && baseAddress == 0
    {
      baseAddress, fastBaseAddress := 0, 0;
    }

    /** The BaseAddress setter updates both stored forms together. */
    method SetBaseAddress(value: IntPtr)
      modifies this
      ensures Valid()
      ensures baseAddress == value && fastBaseAddress == value
    {
      baseAddress := value;
      fastBaseAddress := value;
    }

    /** ToRelative: rejects a zero address; otherwise the offset that, added
        back to the base, gives the absolute address again. */
    function ToRelative(absoluteAddress: IntPtr): (r: Result<IntPtr>)
      reads this
      ensures absoluteAddress == 0 <==> r == Err(Argument("absoluteAddress"))
      ensures r.Ok? ==> Add(r.value, fastBaseAddress) == absoluteAddress
    {
      if absoluteAddress == 0 then Err(Argument("absoluteAddress"))
      else
        SubThenAdd(absoluteAddress, fastBaseAddress);
        Ok(Sub(absoluteAddress, fastBaseAddress))
    }

    /** ToAbsolute: accepts every address, zero included; the result lies at
        `relativeAddress` from the base. */
    function ToAbsolute(relativeAddress: IntPtr): (a: IntPtr)
      reads this
      ensures Sub(a, fastBaseAddress) == relativeAddress
      ensures relativeAddress == 0 ==> a == fastBaseAddress
    {
      AddThenSub(relativeAddress, fastBaseAddress);
      WrapFits(fastBaseAddress);
      Add(relativeAddress, fastBaseAddress)
    }
  }

  /** The address a backend touches for `address`: ToAbsolute applied when
      `isRelative` is set, the address itself otherwise. */
  function Absolute(base: IntPtr, address: IntPtr, isRelative: bool): IntPtr
  {
    if isRelative then Add(address, base) else address
  }

  /** Translating a relative address and back gives the relative address,
      whenever the absolute address is not zero. */
  lemma RelativeRoundTrip(m: NativeMemory, r: IntPtr)
    requires m.ToAbsolute(r) != 0
    ensures m.ToRelative(m.ToAbsolute(r)) == Ok(r)
  {
  }

  /** Translating a non-zero absolute address to relative and back gives the
      absolute address. */
  lemma AbsoluteRoundTrip(m: NativeMemory, a: IntPtr)
    requires a != 0
    ensures m.ToRelative(a).Ok? && m.ToAbsolute(m.ToRelative(a).value) == a
  {
  }

  /** `ToRelative(BaseAddress + 0x5000) == 0x5000`. */
  lemma RelativeOfBasePlus0x5000(m: NativeMemory)
    requires m.Valid() && Add(m.baseAddress, 0x5000) != 0
    ensures m.ToRelative(Add(m.baseAddress, 0x5000)) == Ok(0x5000)
  {
    AddThenSub(m.baseAddress, 0x5000);
    WrapFits(0x5000);
    var a := Add(m.baseAddress, 0x5000);
    assert Sub(a, m.fastBaseAddress) == Wrap(a - m.baseAddress);
    WrapCongruent(a - m.baseAddress, 0x5000);
  }

  // ---------------------------------------------------------------------------
  // Text conversions (a single-byte encoding: byte b <-> character b)

  const Nul: char := '\0'

  /** Encoding.GetString: one character per byte. */
  function Decode(bytes: seq<byte>): (s: string)
    ensures |s| == |bytes|
    ensures forall i :: 0 <= i < |s| ==> s[i] as int == bytes[i]
  {
    seq(|bytes|, i requires 0 <= i < |bytes| => bytes[i] as char)
  }

  /** Encoding.GetBytes: one byte per character; a character the encoding
      cannot represent becomes '?'. */
  function Encode(s: string): (bytes: seq<byte>)
    ensures |bytes| == |s|
    ensures forall i :: 0 <= i < |s| && (s[i] as int) < 0x100 ==> bytes[i] == s[i] as int
  {
    seq(|s|, i requires 0 <= i < |s| => if (s[i] as int) < 0x100 then s[i] as int else '?' as int)
  }

  predicate Representable(s: string)
  {
    forall i :: 0 <= i < |s| ==> (s[i] as int) < 0x100
  }

  /** `ret.Remove(ret.IndexOf('\0'))` when there is a NUL, `ret` otherwise: the
      text before the first NUL. */
  function TruncateAtNul(s: string): (r: string)
    ensures r <= s
    ensures Nul !in r
    ensures |r| < |s| ==> s[|r|] == Nul
  {
    if s == [] then []
    else if s[0] == Nul then []
    else [s[0]] + TruncateAtNul(s[1..])
  }

  /** The text ReadString returns for the bytes it read. */
  function TextOf(buffer: seq<byte>): (s: string)
    ensures Nul !in s && |s| <= |buffer|
  {
    TruncateAtNul(Decode(buffer))
  }

  /** The string WriteString encodes: `value` with a NUL appended unless it
      already ends in one; an empty value fails on `value[value.Length - 1]`. */
  function Terminated(value: string): (r: Result<string>)
    ensures value == [] <==> r == Err(IndexOutOfRange)
    ensures r.Ok? ==> value <= r.value && r.value[|r.value| - 1] == Nul
    ensures r.Ok? ==> |r.value| == |value| + (if value[|value| - 1] == Nul then 0 else 1)
  {
    if value == [] then Err(IndexOutOfRange)
    else if value[|value| - 1] != Nul then Ok(value + [Nul])
    else Ok(value)
  }

  /** The bytes WriteString passes to WriteBytes. */
  function BytesToWrite(value: string): (r: Result<seq<byte>>)
    ensures value == [] <==> r == Err(IndexOutOfRange)
  {
    match Terminated(value)
    case Err(e) => Err(e)
    case Ok(v) => Ok(Encode(v))
  }

  /** A NUL-free, representable string that was written with its terminator is
      read back unchanged from any buffer that starts with those bytes. */
  lemma {:induction false} TextOfTerminated(s: string, buffer: seq<byte>)
    requires Nul !in s && Representable(s)
    requires |s| < |buffer|
    requires buffer[..|s| + 1] == Encode(s + [Nul])
    ensures TextOf(buffer) == s
  {
    var d := Decode(buffer);
    assert d[..|s|] == s by {
      forall i | 0 <= i < |s| ensures d[i] == s[i] {
        assert buffer[i] == Encode(s + [Nul])[i];
      }
    }
    assert d[|s|] == Nul by {
      assert buffer[|s|] == Encode(s + [Nul])[|s|];
    }
    TruncateAtFirstNul(d, |s|);
  }

  /** The truncation of a text whose first NUL is at `k` is its first `k`
      characters. */
  lemma {:induction false} TruncateAtFirstNul(s: string, k: nat)
    requires k < |s| && s[k] == Nul && Nul !in s[..k]
    ensures TruncateAtNul(s) == s[..k]
  {
    if k > 0 {
      assert s[0] in s[..k];
      assert s[1..][..k - 1] == s[..k][1..];
      TruncateAtFirstNul(s[1..], k - 1);
    }
  }

  /** "test string" written and read back with a larger maximum length. */
  lemma TestStringRoundTrip(buffer: seq<byte>)
    requires |buffer| == 512
    requires buffer[..12] == BytesToWrite("test string").value
    ensures TextOf(buffer) == "test string"
  {
    TextOfTerminated("test string", buffer);
  }
}
