/** Bytes and the `struct.pack('<I', v)` encoding the patcher writes into the executable. */
module Bytes {

  /** One byte of the executable image. */
  type byte = b: int | 0 <= b < 256

  /** The values `'<I'` can encode: unsigned 32-bit integers. */
  type uint32 = n: int | 0 <= n < 0x1_0000_0000

  /** `struct.pack('<I', v)`: four bytes, least significant first. */
  function PackU32LE(v: uint32): (bs: seq<byte>)
    ensures |bs| == 4
    ensures bs[0] as int + 0x100 * bs[1] as int + 0x1_0000 * bs[2] as int + 0x100_0000 * bs[3] as int == v
  {
    [v % 0x100, (v / 0x100) % 0x100, (v / 0x1_0000) % 0x100, v / 0x100_0000]
  }

  /** `struct.unpack('<I', bs)[0]`: reads four bytes, least significant first. */
  function UnpackU32LE(bs: seq<byte>): (v: uint32)
    requires |bs| == 4
  {
    bs[0] as int + 0x100 * bs[1] as int + 0x1_0000 * bs[2] as int + 0x100_0000 * bs[3] as int
  }

  /** Decoding what was encoded gives the value back. */
  lemma UnpackPack(v: uint32)
    ensures UnpackU32LE(PackU32LE(v)) == v
  {
  }

  /** Encoding what was decoded gives the four bytes back: the encoding is onto. */
  lemma {:induction false} PackUnpack(bs: seq<byte>)
    requires |bs| == 4
    ensures PackU32LE(UnpackU32LE(bs)) == bs
  {
    var v := UnpackU32LE(bs);
    var hi := bs[1] as int + 0x100 * bs[2] as int + 0x1_0000 * bs[3] as int;
    assert v == bs[0] as int + 0x100 * hi;
    assert v % 0x100 == bs[0] && v / 0x100 == hi;
    var hi2 := bs[2] as int + 0x100 * bs[3] as int;
    assert hi == bs[1] as int + 0x100 * hi2;
    assert v / 0x1_0000 == hi / 0x100 == hi2;
    assert v / 0x100_0000 == hi2 / 0x100 == bs[3];
    assert (v / 0x100) % 0x100 == hi % 0x100 == bs[1];
    assert (v / 0x1_0000) % 0x100 == hi2 % 0x100 == bs[2];
  }

  /** Two values share an encoding exactly when they are equal. */
  lemma PackInjective(a: uint32, b: uint32)
    ensures PackU32LE(a) == PackU32LE(b) <==> a == b
  {
    if PackU32LE(a) == PackU32LE(b) {
      UnpackPack(a);
      UnpackPack(b);
    }
  }
}
