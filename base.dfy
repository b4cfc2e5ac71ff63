/** Shared vocabulary: bytes, bits, 32-bit integers as C# computes them, and the
    error outcomes that stand for the exceptions the archiver can raise. */
module Base {

  /** A .NET `byte`. */
  type byte = x: int | 0 <= x < 256

  /** One bit as `BitWriter.WriteBit` and `BitReader.ReadBit` exchange it. */
  type Bit = b: int | 0 <= b <= 1

  const Int32Min: int := -0x8000_0000
  const Int32Max: int := 0x7FFF_FFFF

  predicate IsInt32(x: int) { Int32Min <= x <= Int32Max }

  /** Unchecked C# `int` addition: the mathematical sum reduced to 32 bits, two's complement. */
  function Wrap32(x: int): (r: int)
    ensures IsInt32(r)
    ensures (r - x) % 0x1_0000_0000 == 0
    ensures IsInt32(x) ==> r == x
  {
    var u := x % 0x1_0000_0000;
    if u > Int32Max then u - 0x1_0000_0000 else u
  }

  /** C# `x / 2` on `int`: the quotient is truncated toward zero. */
  function Half(x: int): (r: int)
    ensures x >= 0 ==> 0 <= r && r + r <= x < r + r + 2
    ensures x < 0 ==> r <= 0 && x <= r + r && r + r - 2 < x
  {
    if x >= 0 then x / 2 else -((-x) / 2)
  }

  /** Exceptions of the .NET runtime that the modelled code can raise. */
  datatype Error =
    | InvalidOperation    // PriorityQueue.Dequeue on an empty queue, Nullable.Value on null
    | NullReference       // member access through a null node
    | Overflow            // checked LINQ Sum leaving the int range
    | DuplicateKey        // ToDictionary meeting the same key twice
    | KeyNotFound         // Dictionary indexer read of a missing key
    | EndOfStream         // BinaryReader reading past the end of the archive
    | ArgumentOutOfRange  // BinaryReader.ReadBytes with a negative count
    | ArgumentNull        // Encoding.GetBytes(null)
    | FileNotFound        // a file that cannot be read
    | StackOverflow       // recursion that never reaches its base case
    | OutOfMemory         // a byte array or byte list longer than `Array.MaxLength`

  /** `Array.MaxLength`: the most elements a .NET byte array can hold. */
  const ArrayMaxLength: int := 0x7FFF_FFC7

  /** A byte array as .NET allocates it. */
  type ByteArray = s: seq<byte> | |s| <= ArrayMaxLength

  datatype Option<+T> = None | Some(value: T)

  datatype Result<+T> = Success(value: T) | Failure(error: Error)

  /** A sequence of `n` zero bits (the padding `GetBytes` leaves in a final byte). */
  function Zeros(n: nat): (r: seq<Bit>)
    ensures |r| == n && forall i | 0 <= i < n :: r[i] == 0
  {
    seq(n, i => 0)
  }

  /** `s` begins with `p`. */
  predicate IsPrefix<T(==)>(p: seq<T>, s: seq<T>) { |p| <= |s| && s[..|p|] == p }

  lemma AppendAssoc<T>(a: seq<T>, b: seq<T>, c: seq<T>)
    ensures a + b + c == a + (b + c)
  {
  }
}
