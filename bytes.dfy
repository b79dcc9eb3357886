/** Python `bytes` elements, and unsigned integers written as bytes most
    significant first (`int.to_bytes(n, "big")`, `int.from_bytes(b, "big")`,
    struct format `I` under `!`). */
module Bytes {
  type byte = x: int | 0 <= x < 256

  const TwoTo32: nat := 0x1_0000_0000

  /** `int.from_bytes(b, byteorder="big")` of four bytes. */
  function FromBigEndian32(b: seq<byte>): (x: int)
    requires |b| == 4
    ensures 0 <= x < TwoTo32
  {
    ((b[0] as int * 0x100 + b[1]) * 0x100 + b[2]) * 0x100 + b[3]
  }

  /** `x.to_bytes(4, byteorder="big")`, which raises unless `x` fits. */
  function BigEndian32(x: int): (b: seq<byte>)
    requires 0 <= x < TwoTo32
    ensures |b| == 4
    ensures FromBigEndian32(b) == x
  {
    var b3, b2, b1, b0 := x / 0x100_0000, (x / 0x1_0000) % 0x100, (x / 0x100) % 0x100, x % 0x100;
    assert x == (x / 0x100) * 0x100 + b0;
    assert x / 0x1_0000 == (x / 0x100) / 0x100;
    assert x / 0x100 == (x / 0x1_0000) * 0x100 + b1;
    assert x / 0x100_0000 == (x / 0x1_0000) / 0x100;
    assert x / 0x1_0000 == b3 * 0x100 + b2;
    [b3, b2, b1, b0]
  }

  /** Reading four bytes and writing them back gives the same bytes. */
  lemma {:induction false} BigEndian32Inverse(b: seq<byte>)
    requires |b| == 4
    ensures BigEndian32(FromBigEndian32(b)) == b
  {
    var x := FromBigEndian32(b);
    var hi: int := (b[0] as int * 0x100 + b[1]) * 0x100 + b[2];
    assert x == hi * 0x100 + b[3];
    assert x % 0x100 == b[3] && x / 0x100 == hi;
    var mid: int := b[0] as int * 0x100 + b[1];
    assert hi % 0x100 == b[2] && hi / 0x100 == mid;
    assert x / 0x1_0000 == mid by {
      assert x / 0x1_0000 == (x / 0x100) / 0x100;
    }
    assert x / 0x100_0000 == b[0] by {
      assert x / 0x100_0000 == (x / 0x1_0000) / 0x100;
    }
    assert (x / 0x100) % 0x100 == b[2];
    assert (x / 0x1_0000) % 0x100 == b[1];
  }
}
