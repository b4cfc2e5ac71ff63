/** The MSB-first bit codec of Huffman/Archive/BitWriter.cs: a writer that packs
    bits into a growing byte list and a reader that hands every bit of a byte
    array back, padding bits included. */
module BitStream {
  import opened Base

  /** Bit `i` of `b`, counting from the most significant bit (`b >> 7 - i & 1`). */
  function BitOf(b: byte, i: nat): Bit
    requires i < 8
  {
    BvBit(b as bv8, i)
  }

  function BvBit(x: bv8, i: nat): Bit
    requires i < 8
  {
    ((x >> (7 - i)) & 1) as int
  }

  /** The eight bits of `b`, most significant first. */
  function ByteBits(b: byte): (r: seq<Bit>)
    ensures |r| == 8
  {
    seq(8, i requires 0 <= i < 8 => BitOf(b, i))
  }

  /** Every bit of `data`, byte after byte, each byte most significant bit first. */
  function BytesToBits(data: seq<byte>): (r: seq<Bit>)
    ensures |r| == 8 * |data|
  {
    if data == [] then [] else ByteBits(data[0]) + BytesToBits(data[1..])
  }

  /** The byte whose leading bits are `bs` and whose remaining bits are zero. */
  function ByteOfBits(bs: seq<Bit>): byte
    requires |bs| <= 8
  {
    if bs == [] then 0
    else SetBit(ByteOfBits(bs[..|bs| - 1]), |bs| - 1, bs[|bs| - 1])
  }

  /** `b` with bit `k` (counted from the most significant) or-ed with `bit`, as `WriteBit` does it. */
  function SetBit(b: byte, k: nat, bit: Bit): byte
    requires k < 8
  {
    if bit == 1 then ((b as bv8) | (1 << (7 - k))) as int else b
  }

  /** What `GetBytes` produces for a fresh writer that was given `bits`: eight bits
      per byte, the final partial byte zero-padded in its low-order bits. */
  function PackBits(bits: seq<Bit>): seq<byte>
    decreases |bits|
  {
    if |bits| == 0 then []
    else if |bits| <= 8 then [ByteOfBits(bits)]
    else [ByteOfBits(bits[..8])] + PackBits(bits[8..])
  }

  /** The number of zero bits that pad `n` bits up to a whole number of bytes. */
  function PadLength(n: nat): (r: nat)
    ensures r < 8 && (n + r) % 8 == 0
  {
    (8 - n % 8) % 8
  }

  /** The bits a code string stands for: `WriteBits` writes 1 for '1' and 0 for any other character. */
  function CodeBits(s: string): (r: seq<Bit>)
    ensures |r| == |s|
    ensures forall i | 0 <= i < |s| :: r[i] == (if s[i] == '1' then 1 else 0)
  {
    seq(|s|, i requires 0 <= i < |s| => if s[i] == '1' then 1 else 0)
  }

  lemma CodeBitsAppend(s: string, t: string)
    ensures CodeBits(s + t) == CodeBits(s) + CodeBits(t)
  {
  }

  // ---------------------------------------------------------------------------
  // Bit-level facts about single bytes

  lemma ByteRoundTrip(b: byte)
    ensures (b as bv8) as int == b
  {
    // One case per high nibble keeps each int-to-bit-vector conversion small for the solver.
    if b < 16 {
    } else if b < 32 {
    } else if b < 48 {
    } else if b < 64 {
    } else if b < 80 {
    } else if b < 96 {
    } else if b < 112 {
    } else if b < 128 {
    } else if b < 144 {
    } else if b < 160 {
    } else if b < 176 {
    } else if b < 192 {
    } else if b < 208 {
    } else if b < 224 {
    } else if b < 240 {
    } else {
    }
  }

  lemma BvRoundTrip(x: bv8)
    ensures 0 <= x as int < 256 && ((x as int) as bv8) == x
  {
  }

  lemma BvBitOr(x: bv8, k: nat, i: nat)
    requires k < 8 && i < 8
    ensures BvBit(x | (1 << (7 - k)), i) == if i == k then 1 else BvBit(x, i)
  {
  }

  lemma BitOfOr(b: byte, k: nat, i: nat)
    requires k < 8 && i < 8
    ensures BitOf(((b as bv8) | (1 << (7 - k))) as int, i) == if i == k then 1 else BitOf(b, i)
  {
    var x := (b as bv8) | (1 << (7 - k));
    BvRoundTrip(x);
    BvBitOr(b as bv8, k, i);
  }

  lemma BitOfSetBit(b: byte, k: nat, bit: Bit, i: nat)
    requires k < 8 && i < 8
    ensures BitOf(SetBit(b, k, bit), i) == if i == k then (if bit == 1 then 1 else BitOf(b, i)) else BitOf(b, i)
  {
    if bit == 1 { BitOfOr(b, k, i); }
  }

  lemma BitOfZero(i: nat)
    requires i < 8
    ensures BitOf(0, i) == 0
  {
  }

  lemma BvExtensionality(x: bv8, y: bv8)
    requires forall i | 0 <= i < 8 :: BvBit(x, i) == BvBit(y, i)
    ensures x == y
  {
    assert BvBit(x, 0) == BvBit(y, 0) && BvBit(x, 1) == BvBit(y, 1);
    assert BvBit(x, 2) == BvBit(y, 2) && BvBit(x, 3) == BvBit(y, 3);
    assert BvBit(x, 4) == BvBit(y, 4) && BvBit(x, 5) == BvBit(y, 5);
    assert BvBit(x, 6) == BvBit(y, 6) && BvBit(x, 7) == BvBit(y, 7);
  }

  /** Two bytes with the same eight bits are the same byte. */
  lemma ByteExtensionality(b: byte, c: byte)
    requires forall i | 0 <= i < 8 :: BitOf(b, i) == BitOf(c, i)
    ensures b == c
  {
    var x, y := b as bv8, c as bv8;
    forall i | 0 <= i < 8 ensures BvBit(x, i) == BvBit(y, i) {
      assert BitOf(b, i) == BitOf(c, i);
    }
    BvExtensionality(x, y);
    ByteRoundTrip(b);
    ByteRoundTrip(c);
  }

  /** `ByteOfBits` puts `bs[i]` at bit position `i` and zero everywhere after `bs`. */
  lemma {:induction false} ByteOfBitsAt(bs: seq<Bit>, i: nat)
    requires |bs| <= 8 && i < 8
    ensures BitOf(ByteOfBits(bs), i) == if i < |bs| then bs[i] else 0
  {
    if bs == [] {
      BitOfZero(i);
    } else {
      var k := |bs| - 1;
      var front := bs[..k];
      ByteOfBitsAt(front, i);
      BitOfSetBit(ByteOfBits(front), k, bs[k], i);
    }
  }

  /** The bits of a byte rebuild it. */
  lemma ByteOfByteBits(b: byte)
    ensures ByteOfBits(ByteBits(b)) == b
  {
    forall i | 0 <= i < 8 ensures BitOf(ByteOfBits(ByteBits(b)), i) == BitOf(b, i) {
      ByteOfBitsAt(ByteBits(b), i);
    }
    ByteExtensionality(ByteOfBits(ByteBits(b)), b);
  }

  // ---------------------------------------------------------------------------
  // Facts about BytesToBits and PackBits

  /** Bit `k` of the stream is bit `k % 8` of byte `k / 8`. */
  lemma {:induction false} BytesToBitsAt(data: seq<byte>, k: nat)
    requires k < 8 * |data|
    ensures BytesToBits(data)[k] == BitOf(data[k / 8], k % 8)
  {
    if k >= 8 {
      BytesToBitsAt(data[1..], k - 8);
      assert (k - 8) / 8 == k / 8 - 1 && (k - 8) % 8 == k % 8;
    }
  }

  lemma BytesToBitsAppend(a: seq<byte>, b: seq<byte>)
    ensures BytesToBits(a + b) == BytesToBits(a) + BytesToBits(b)
  {
    var l, r := BytesToBits(a + b), BytesToBits(a) + BytesToBits(b);
    forall k | 0 <= k < |l| ensures l[k] == r[k] {
      BytesToBitsAt(a + b, k);
      if k < 8 * |a| {
        BytesToBitsAt(a, k);
      } else {
        BytesToBitsAt(b, k - 8 * |a|);
        assert (k - 8 * |a|) / 8 == k / 8 - |a| && (k - 8 * |a|) % 8 == k % 8;
      }
    }
  }

  lemma {:induction false} PackBitsLength(bits: seq<Bit>)
    ensures |PackBits(bits)| == (|bits| + 7) / 8
    decreases |bits|
  {
    if |bits| > 8 {
      PackBitsLength(bits[8..]);
    }
  }

  /** The k-th bit given to the writer lands in byte k / 8 at bit position 7 - k % 8
      (MSB first); every later bit of the last byte is a zero padding bit. */
  lemma {:induction false} PackBitsAt(bits: seq<Bit>, k: nat)
    requires k < 8 * ((|bits| + 7) / 8)
    ensures |PackBits(bits)| == (|bits| + 7) / 8
    ensures BitOf(PackBits(bits)[k / 8], k % 8) == if k < |bits| then bits[k] else 0
    decreases |bits|
  {
    PackBitsLength(bits);
    if k < 8 {
      SmallDivMod8(k);
      if |bits| <= 8 {
        ByteOfBitsAt(bits, k);
      } else {
        ByteOfBitsAt(bits[..8], k);
      }
    } else {
      ShiftDivMod8(k);
      PackBitsAt(bits[8..], k - 8);
    }
  }

  lemma SmallDivMod8(k: nat)
    requires k < 8
    ensures k / 8 == 0 && k % 8 == k
  {
  }

  lemma ShiftDivMod8(k: nat)
    requires k >= 8
    ensures (k - 8) / 8 == k / 8 - 1 && (k - 8) % 8 == k % 8
  {
  }

  lemma PadArithmetic(n: nat)
    ensures 8 * ((n + 7) / 8) == n + PadLength(n)
  {
    var m, rest := n / 8, n % 8;
    assert n == 8 * m + rest;
    assert (n + 7) / 8 == m + (rest + 7) / 8;
  }

  /** Reading back what was packed gives the bits followed by the zero padding. */
  lemma PackUnpack(bits: seq<Bit>)
    ensures BytesToBits(PackBits(bits)) == bits + Zeros(PadLength(|bits|))
  {
    var n := |bits|;
    var l := BytesToBits(PackBits(bits));
    var z := Zeros(PadLength(n));
    PadArithmetic(n);
    UnpackLength(bits);
    assert |l| == n + |z|;
    forall k | 0 <= k < |l| ensures l[k] == (bits + z)[k] {
      UnpackAt(bits, k);
      if k >= n {
        assert (bits + z)[k] == z[k - n];
      }
    }
    assert l == bits + z;
  }

  lemma UnpackLength(bits: seq<Bit>)
    ensures |BytesToBits(PackBits(bits))| == 8 * ((|bits| + 7) / 8)
  {
    PackBitsLength(bits);
  }

  lemma UnpackAt(bits: seq<Bit>, k: nat)
    requires k < 8 * ((|bits| + 7) / 8)
    ensures |BytesToBits(PackBits(bits))| == 8 * ((|bits| + 7) / 8)
    ensures BytesToBits(PackBits(bits))[k] == if k < |bits| then bits[k] else 0
  {
    PackBitsAt(bits, k);
    BytesToBitsAt(PackBits(bits), k);
  }

  /** Packing whole bytes' worth of bits followed by fewer than eight more bits. */
  lemma {:induction false} PackAfterBytes(buf: seq<byte>, p: seq<Bit>)
    requires |p| < 8
    ensures PackBits(BytesToBits(buf) + p) == buf + (if |p| > 0 then [ByteOfBits(p)] else [])
  {
    if buf == [] {
      assert BytesToBits(buf) + p == p;
    } else {
      var head, tail := ByteBits(buf[0]), BytesToBits(buf[1..]);
      assert BytesToBits(buf) == head + tail;
      var s := (head + tail) + p;
      assert s[..8] == head;
      assert s[8..] == tail + p;
      ByteOfByteBits(buf[0]);
      PackAfterBytes(buf[1..], p);
      var extra := if |p| > 0 then [ByteOfBits(p)] else [];
      assert buf + extra == [buf[0]] + (buf[1..] + extra);
      if |s| > 8 {
        assert PackBits(s) == [ByteOfBits(s[..8])] + PackBits(s[8..]);
      } else {
        assert s == head && buf[1..] == [] && extra == [];
      }
    }
  }

  /** Setting bit `pos` of a byte whose bits from `pos` on are zero extends its
      leading `pos` bits by one and keeps the bits after it zero. */
  lemma SetNextBit(c: byte, pos: nat, b: Bit)
    requires pos < 8
    requires forall i | pos <= i < 8 :: BitOf(c, i) == 0
    ensures ByteBits(SetBit(c, pos, b))[..pos + 1] == ByteBits(c)[..pos] + [b]
    ensures forall i | pos + 1 <= i < 8 :: BitOf(SetBit(c, pos, b), i) == 0
  {
    forall i | 0 <= i < 8
      ensures BitOf(SetBit(c, pos, b), i) == if i == pos then b else BitOf(c, i)
    {
      BitOfSetBit(c, pos, b, i);
    }
  }

  lemma ModStep8(a: nat)
    ensures (a % 8 + 1) % 8 == (a + 1) % 8
  {
    DivMod8(a / 8, a % 8);
  }

  lemma DivMod8(q: nat, r: nat)
    requires r < 8
    ensures (8 * q + r) / 8 == q && (8 * q + r) % 8 == r
  {
  }

  // ---------------------------------------------------------------------------

  /** Huffman/Archive/BitWriter.cs `BitWriter`: full bytes go to `buffer`, the byte
      being filled is `currentByte`, and `bitPos` counts its bits already set. */
  class BitWriter {
    var buffer: seq<byte>
    var bitPos: int
    var currentByte: byte

    /** `bitPos` stays in 0..7 and the bits of `currentByte` not yet written are 0. */
    ghost predicate Valid()
      reads this
    {
      0 <= bitPos < 8 && forall i | bitPos <= i < 8 :: BitOf(currentByte, i) == 0
    }

    /** The bits written into `currentByte` so far. */
    ghost function Pending(): seq<Bit>
      reads this
      requires Valid()
    {
      ByteBits(currentByte)[..bitPos]
    }

    /** Every bit the buffer and the pending byte hold, in order. */
    ghost function Stream(): seq<Bit>
      reads this
      requires Valid()
    {
      BytesToBits(buffer) + Pending()
    }

    constructor ()
      ensures Valid() && buffer == [] && bitPos == 0 && currentByte == 0
      ensures Stream() == []
    {
      buffer, bitPos, currentByte := [], 0, 0;
      forall i | 0 <= i < 8 ensures BitOf(0, i) == 0 { BitOfZero(i); }
    }

    /** Appends one bit (any non-zero `bit` is a 1); the eighth bit of a byte moves
        the byte to `buffer` and resets `bitPos` and `currentByte` to 0. */
    method WriteBit(bit: int)
      requires Valid()
      modifies this
      ensures Valid()
      ensures Stream() == old(Stream()) + [if bit != 0 then 1 else 0]
      ensures bitPos == (old(bitPos) + 1) % 8
      ensures old(bitPos) < 7 ==> buffer == old(buffer)
      ensures old(bitPos) == 7 ==> |buffer| == |old(buffer)| + 1 && buffer[..|old(buffer)|] == old(buffer)
      ensures bitPos == 0 ==> currentByte == 0
    {
      ghost var b: Bit := if bit != 0 then 1 else 0;
      ghost var oldPending := Pending();
      SetNextBit(currentByte, bitPos, b);
      ghost var next := SetBit(currentByte, bitPos, b);
      if bit != 0 {
        currentByte := ((currentByte as bv8) | (1 << (7 - bitPos))) as int;
      }
      assert currentByte == next;
      ghost var written := BytesToBits(buffer);
      assert old(Stream()) + [b] == written + (oldPending + [b]);
      bitPos := bitPos + 1;
      if bitPos == 8 {
        assert ByteBits(next) == oldPending + [b];
        BytesToBitsAppend(buffer, [next]);
        assert BytesToBits([next]) == ByteBits(next);
        buffer := buffer + [currentByte];
        bitPos := 0;
        currentByte := 0;
        forall i | 0 <= i < 8 ensures BitOf(0, i) == 0 { BitOfZero(i); }
        assert Pending() == [];
        assert BytesToBits(buffer) == written + (oldPending + [b]);
      } else {
        assert Pending() == oldPending + [b];
      }
    }

    /** Writes one bit per character of `bits`, in order: '1' gives 1, anything else 0. */
    method WriteBits(bits: string)
      requires Valid()
      modifies this
      ensures Valid()
      ensures Stream() == old(Stream()) + CodeBits(bits)
      ensures bitPos == (old(bitPos) + |bits|) % 8
    {
      for i := 0 to |bits|
        invariant Valid()
        invariant Stream() == old(Stream()) + CodeBits(bits[..i])
        invariant bitPos == (old(bitPos) + i) % 8
      {
        ghost var before := CodeBits(bits[..i]);
        var bit := if bits[i] == '1' then 1 else 0;
        WriteBit(bit);
        ModStep8(old(bitPos) + i);
        assert bits[..i + 1] == bits[..i] + [bits[i]];
        CodeBitsAppend(bits[..i], [bits[i]]);
        assert old(Stream()) + before + [bit] == old(Stream()) + (before + [bit]);
      }
      assert bits[..|bits|] == bits;
    }

    /** Flushes a pending partial byte into `buffer` and returns `buffer`; it does not
        reset `bitPos` or `currentByte`, so a second call with a partial byte pending
        appends that byte again. */
    method GetBytes() returns (r: seq<byte>)
      requires Valid()
      modifies this
      ensures Valid()
      ensures r == PackBits(old(Stream()))
      ensures |r| == (|old(Stream())| + 7) / 8
      ensures r == buffer
      ensures buffer == old(buffer) + (if old(bitPos) > 0 then [old(currentByte)] else [])
      ensures bitPos == old(bitPos) && currentByte == old(currentByte)
    {
      ghost var p := Pending();
      PackAfterBytes(buffer, p);
      PackBitsLength(Stream());
      if bitPos > 0 {
        forall i | 0 <= i < 8 ensures BitOf(ByteOfBits(p), i) == BitOf(currentByte, i) {
          ByteOfBitsAt(p, i);
        }
        ByteExtensionality(ByteOfBits(p), currentByte);
        buffer := buffer + [currentByte];
      }
      r := buffer;
    }
  }

  /** Huffman/Archive/BitWriter.cs `BitReader`: reads `data` bit by bit, most
      significant bit first, bit `bitPos` of byte `byteIndex` next. */
  class BitReader {
    var data: seq<byte>
    var byteIndex: int
    var bitPos: int

    ghost predicate Valid()
      reads this
    {
      0 <= byteIndex <= |data| && 0 <= bitPos < 8 && (byteIndex == |data| ==> bitPos == 0)
    }

    /** How many bits have been read. */
    ghost function Position(): nat
      reads this
      requires Valid()
    {
      8 * byteIndex + bitPos
    }

    /** The bits still to be read. */
    ghost function Remaining(): seq<Bit>
      reads this
      requires Valid()
    {
      BytesToBits(data)[Position()..]
    }

    constructor (input: seq<byte>)
      ensures Valid() && data == input && Position() == 0
      ensures Remaining() == BytesToBits(input)
    {
      data, byteIndex, bitPos := input, 0, 0;
    }

    /** Hands out the next bit while any is left (8 per byte of `data`, padding bits
        included); afterwards returns false with `bit == 0` on every call. */
    method ReadBit() returns (ok: bool, bit: Bit)
      requires Valid()
      modifies this
      ensures Valid() && data == old(data)
      ensures ok == (old(Remaining()) != [])
      ensures ok ==> old(Remaining()) == [bit] + Remaining()
      ensures ok ==> bit == BytesToBits(data)[old(Position())] && Position() == old(Position()) + 1
      ensures !ok ==> bit == 0 && Position() == old(Position()) && Remaining() == []
    {
      if byteIndex >= |data| {
        bit := 0;
        ok := false;
        return;
      }
      ghost var all := BytesToBits(data);
      ghost var pos := Position();
      BytesToBitsAt(data, pos);
      DivMod8(byteIndex, bitPos);
      assert all[pos..] == [all[pos]] + all[pos + 1..];
      bit := BitOf(data[byteIndex], bitPos);
      bitPos := bitPos + 1;
      if bitPos == 8 {
        bitPos := 0;
        byteIndex := byteIndex + 1;
      }
      ok := true;
    }
  }
}
