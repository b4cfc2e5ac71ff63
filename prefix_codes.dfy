/** Code strings as both processors use them: a byte's code is a string of
    '0'/'1' characters, and the encode loop of `HuffmanCompress` and
    `ShannonFanoCompress` writes the bits of each byte's code in turn. */
module PrefixCodes {
  import opened Base
  import opened BitStream

  /** Every character is '0' or '1'. */
  predicate IsBinary(code: string)
  {
    forall i | 0 <= i < |code| :: code[i] == '0' || code[i] == '1'
  }

  /** No code is a prefix of the code of another symbol. */
  predicate PrefixFree(table: map<byte, string>)
  {
    forall a, b | a in table && b in table && a != b :: !IsPrefix(table[a], table[b])
  }

  /** The encode loop `writer.WriteBits(codeTable[b])` for each byte: a byte
      without a code makes the indexer throw `KeyNotFoundException`. */
  function Encode(data: seq<byte>, codes: map<byte, string>): (r: Result<seq<Bit>>)
    ensures r.Failure? <==> exists i | 0 <= i < |data| :: data[i] !in codes
    ensures r.Failure? ==> r.error == KeyNotFound
  {
    if data == [] then Success([])
    else if data[0] !in codes then Failure(KeyNotFound)
    else
      match Encode(data[1..], codes)
      case Failure(e) => Failure(e)
      case Success(bits) =>
        assert forall i | 1 <= i < |data| :: data[i] == data[1..][i - 1];
        Success(CodeBits(codes[data[0]]) + bits)
  }

  lemma {:induction false} EncodeSnoc(data: seq<byte>, b: byte, codes: map<byte, string>)
    requires Encode(data, codes).Success? && b in codes
    ensures Encode(data + [b], codes) == Success(Encode(data, codes).value + CodeBits(codes[b]))
  {
    if data == [] {
      assert [b][1..] == [];
      assert CodeBits(codes[b]) + [] == [] + CodeBits(codes[b]);
    } else {
      assert (data + [b])[0] == data[0] && (data + [b])[1..] == data[1..] + [b];
      EncodeSnoc(data[1..], b, codes);
      var head := CodeBits(codes[data[0]]);
      assert Encode(data, codes).value == head + Encode(data[1..], codes).value;
      assert head + (Encode(data[1..], codes).value + CodeBits(codes[b]))
        == head + Encode(data[1..], codes).value + CodeBits(codes[b]);
    }
  }

  lemma EncodeCons(data: seq<byte>, codes: map<byte, string>)
    requires data != [] && Encode(data, codes).Success?
    ensures data[0] in codes && Encode(data[1..], codes).Success?
    ensures Encode(data, codes).value == CodeBits(codes[data[0]]) + Encode(data[1..], codes).value
  {
  }

  /** Every byte has a code, so encoding succeeds. */
  lemma EncodeAllKeys(data: seq<byte>, codes: map<byte, string>)
    requires forall b | b in data :: b in codes
    ensures Encode(data, codes).Success?
  {
    assert forall i | 0 <= i < |data| :: data[i] in data;
  }

  /** The encode loop of `HuffmanCompress` and `ShannonFanoCompress`: a fresh
      `BitWriter`, `WriteBits(codeTable[b])` for each byte in turn, then
      `GetBytes()`. */
  method WriteCodes(data: seq<byte>, codes: map<byte, string>) returns (r: Result<seq<byte>>)
    ensures Encode(data, codes).Failure? ==> r == Failure(KeyNotFound)
    ensures Encode(data, codes).Success? ==> r == Success(PackBits(Encode(data, codes).value))
  {
    var writer := new BitWriter();
    for i := 0 to |data|
      invariant writer.Valid()
      invariant Encode(data[..i], codes).Success?
      invariant writer.Stream() == Encode(data[..i], codes).value
    {
      if data[i] !in codes {
        assert Encode(data, codes).Failure?;
        return Failure(KeyNotFound);
      }
      writer.WriteBits(codes[data[i]]);
      EncodeSnoc(data[..i], data[i], codes);
      assert data[..i + 1] == data[..i] + [data[i]];
    }
    assert data[..|data|] == data;
    var bytes := writer.GetBytes();
    r := Success(bytes);
  }
}
