/**
 * The fixed-width scalar that the patcher stores: an unsigned 32-bit integer
 * in little-endian byte order, as produced by Python's `struct.pack('<I', v)`.
 */
module LittleEndian {
  import opened Wrappers

  type byte = x: int | 0 <= x < 256

  /** One more than the largest value format `<I` can hold. */
  const U32Limit: nat := 0x1_0000_0000

  /** The four bytes of `v`, least significant first. */
  function Encode32(v: nat): (b: seq<byte>)
    requires v < U32Limit
    ensures |b| == 4
    ensures v == b[0] as int + b[1] as int * 256 + b[2] as int * 65536 + b[3] as int * 16777216
  {
    var q1 := v / 256;
    var q2 := q1 / 256;
    var q3 := q2 / 256;
    assert v == v % 256 + 256 * q1;
    assert q1 == q1 % 256 + 256 * q2;
    assert q2 == q2 % 256 + 256 * q3;
    assert q3 < 256 by {
      assert q1 < 16777216;
      assert q2 < 65536;
    }
    [v % 256, q1 % 256, q2 % 256, q3]
  }

  /** The value of four little-endian bytes. */
  function Decode32(b: seq<byte>): (v: nat)
    requires |b| == 4
    ensures v < U32Limit
  {
    b[0] as int + 256 * (b[1] as int + 256 * (b[2] as int + b[3] as int * 256))
  }

  /** `struct.pack('<I', v)`: fails (raises `struct.error`) when `v` does not fit in 32 bits. */
  function Pack(v: nat): (r: Option<seq<byte>>)
    ensures r.Some? <==> v < U32Limit
    ensures r.Some? ==> |r.value| == 4 && Decode32(r.value) == v
  {
    if v < U32Limit then
      DecodeEncode(v);
      Some(Encode32(v))
    else None
  }

  /** Decoding the packed bytes gives back the value. */
  lemma DecodeEncode(v: nat)
    requires v < U32Limit
    ensures Decode32(Encode32(v)) == v
  {
    var b := Encode32(v);
    assert b[0] as int + 256 * (b[1] as int + 256 * (b[2] as int + b[3] as int * 256))
        == b[0] as int + b[1] as int * 256 + b[2] as int * 65536 + b[3] as int * 16777216;
  }

  /** Encoding the decoded value gives back the bytes: the encoding is a bijection onto 4-byte strings. */
  lemma EncodeDecode(b: seq<byte>)
    requires |b| == 4
    ensures Encode32(Decode32(b)) == b
  {
    var v := Decode32(b);
    var w := b[1] as int + 256 * (b[2] as int + b[3] as int * 256);
    assert v == b[0] as int + 256 * w;
    assert v % 256 == b[0] && v / 256 == w;
    var u := b[2] as int + b[3] as int * 256;
    assert w % 256 == b[1] && w / 256 == u;
    assert v / 65536 == u by {
      assert v == (b[0] as int + b[1] as int * 256) + 65536 * u;
    }
    assert v / 16777216 == b[3] by {
      assert v == (b[0] as int + b[1] as int * 256 + b[2] as int * 65536) + b[3] as int * 16777216;
    }
  }

  /** Two values with the same encoding are equal. */
  lemma EncodeInjective(v: nat, w: nat)
    requires v < U32Limit && w < U32Limit
    ensures Encode32(v) == Encode32(w) ==> v == w
  {
    DecodeEncode(v);
    DecodeEncode(w);
  }
}
