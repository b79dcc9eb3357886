/** The 16-bit complement checksum of `lab08/checksum.py`, in the style of
    section 1 of RFC 1071 but with plain modulo-2^16 addition: the
    "end-around carry" is shifted right by 0xFFFF bits, which leaves
    nothing of a 17-bit sum. Words are read most significant byte first; a
    trailing odd byte is a word of its own value. */
module Checksum16 {
  import opened Bytes
  import opened Exceptions

  const Mask: int := 0xFFFF
  const Modulus: int := 0x1_0000

  /** `2 ** n`. */
  function Pow2(n: nat): (p: nat)
    ensures p >= 1
  {
    if n == 0 then 1 else 2 * Pow2(n - 1)
  }

  lemma {:induction false} Pow2Sum(m: nat, n: nat)
    ensures Pow2(m + n) == Pow2(m) * Pow2(n)
    decreases n
  {
    if n > 0 {
      Pow2Sum(m, n - 1);
    }
  }

  lemma Pow2Of17()
    ensures Pow2(17) == 0x2_0000
  {
    assert Pow2(2) == 4;
    Pow2Sum(2, 2);
    Pow2Sum(4, 4);
    Pow2Sum(8, 8);
    assert Pow2(17) == 2 * Pow2(16);
  }

  /** `x >> n` on a non-negative Python integer. */
  function ShiftRight(x: nat, n: nat): (r: nat)
    ensures r <= x
  {
    if n == 0 || x == 0 then x else ShiftRight(x / 2, n - 1)
  }

  /** Shifting a number of `bits` bits right by at least `bits` leaves
      nothing. */
  lemma {:induction false} ShiftRightVanishes(x: nat, n: nat, bits: nat)
    requires bits <= n && x < Pow2(bits)
    ensures ShiftRight(x, n) == 0
    decreases n
  {
    if n > 0 {
      if bits > 0 {
        ShiftRightVanishes(x / 2, n - 1, bits - 1);
      } else {
        ShiftRightVanishes(x / 2, n - 1, 0);
      }
    }
  }

  /** `uint16_add(a, b)`: the sum masked to 16 bits plus the carry
      `(a + b) >> 0xFFFF`, masked again. The carry is always zero, so this
      is addition modulo 2^16. */
  function Uint16Add(a: int, b: int): (r: int)
    requires 0 <= a <= Mask && 0 <= b <= Mask
    ensures 0 <= r <= Mask
    ensures r == (a + b) % Modulus
  {
    var sum := (a + b) % Modulus;
    var carry := ShiftRight(a + b, Mask);
    Pow2Of17();
    ShiftRightVanishes(a + b, Mask, 17);
    (sum + carry) % Modulus
  }

  /** `uint16_neg(a)`: `(~a) & 0xFFFF`, where `~a` is `-a - 1` on Python
      integers and masking with 0xFFFF is reduction modulo 2^16. */
  function Uint16Neg(a: int): (r: int)
    requires 0 <= a <= Mask
    ensures 0 <= r <= Mask
    ensures r + a == Mask
  {
    (-a - 1) % Modulus
  }

  /** `int.from_bytes(data[i:i + 2], "big")`: two bytes, or the last one
      alone. */
  function Word(data: seq<byte>, i: nat): (w: int)
    requires i < |data|
    ensures 0 <= w <= Mask
  {
    if i + 1 < |data| then data[i] as int * 0x100 + data[i + 1] else data[i]
  }

  /** The loops of `calculate_checksum` and `verify_checksum`: add every
      word of `data` to `acc`, front to back. */
  function Accumulate(acc: int, data: seq<byte>): (r: int)
    requires 0 <= acc <= Mask
    ensures 0 <= r <= Mask
    decreases |data|
  {
    if data == [] then acc
    else Accumulate(Uint16Add(acc, Word(data, 0)), if |data| >= 2 then data[2..] else [])
  }

  /** The words of `data` added up without any reduction. */
  function WordTotal(data: seq<byte>): (t: nat)
    decreases |data|
  {
    if data == [] then 0
    else Word(data, 0) + WordTotal(if |data| >= 2 then data[2..] else [])
  }

  /** Accumulating is adding the word total modulo 2^16. */
  lemma {:induction false} AccumulateAdds(acc: int, data: seq<byte>)
    requires 0 <= acc <= Mask
    ensures Accumulate(acc, data) == (acc + WordTotal(data)) % Modulus
    decreases |data|
  {
    if data != [] {
      var rest := if |data| >= 2 then data[2..] else [];
      var w := Word(data, 0);
      AccumulateAdds(Uint16Add(acc, w), rest);
      ModAddLeft(acc + w, WordTotal(rest));
    }
  }

  lemma ModAddLeft(x: int, y: int)
    ensures (x % Modulus + y) % Modulus == (x + y) % Modulus
  {
    var q := x / Modulus;
    assert x == q * Modulus + x % Modulus;
    assert x + y == (x % Modulus + y) + q * Modulus;
  }

  /** What `calculate_checksum(data)` returns. */
  function Checksum(data: seq<byte>): (c: int)
    ensures 0 <= c <= Mask
  {
    Uint16Neg(Accumulate(0, data))
  }

  /** What `verify_checksum(data, received)` returns when it does not fail:
      the received checksum plus every word is all ones. */
  predicate Verifies(data: seq<byte>, received: int)
    requires 0 <= received <= Mask
    ensures Verifies(data, received) <==> received == Checksum(data)
  {
    AccumulateReachesMask(data, received);
    Accumulate(received, data) == Mask
  }

  /** The checksum is the complement of the word total modulo 2^16. */
  lemma ChecksumComplementsTotal(data: seq<byte>)
    ensures Checksum(data) == Mask - WordTotal(data) % Modulus
  {
    AccumulateAdds(0, data);
  }

  /** The running sum started at `received` ends all ones for exactly one
      value, the one `calculate_checksum` computes. */
  lemma AccumulateReachesMask(data: seq<byte>, received: int)
    requires 0 <= received <= Mask
    ensures Accumulate(received, data) == Mask <==> received == Checksum(data)
  {
    AccumulateAdds(received, data);
    ChecksumComplementsTotal(data);
    ModAddLeft(WordTotal(data), received);
    ComplementUnique(WordTotal(data) % Modulus, received);
  }

  /** Below 2^16, exactly one addend brings `t` to all ones. */
  lemma ComplementUnique(t: int, received: int)
    requires 0 <= t < Modulus && 0 <= received <= Mask
    ensures (t + received) % Modulus == Mask <==> received == Mask - t
  {
    if received <= Mask - t {
      assert (t + received) % Modulus == t + received;
    } else {
      assert (t + received) % Modulus == t + received - Modulus;
    }
  }

  /** A checksum always verifies its own data: in particular empty data,
      whose checksum is 0xFFFF, and a single byte. */
  lemma ChecksumVerifies(data: seq<byte>)
    ensures Verifies(data, Checksum(data))
    ensures data == [] ==> Checksum(data) == Mask
    ensures |data| == 1 ==> Checksum(data) == Mask - data[0]
  {
    if |data| == 1 {
      assert Accumulate(0, data) == Accumulate(Uint16Add(0, data[0]), []);
    }
  }

  /** The word total after one byte changes: a byte at an even position
      that starts a full word weighs 256, any other byte weighs 1. */
  lemma {:induction false} WordTotalUpdate(data: seq<byte>, i: nat, b: byte, weight: int)
    requires i < |data|
    requires weight == (if (i % 2 == 0 && i + 1 < |data|) then 0x100 else 1)
    ensures WordTotal(data[i := b]) == WordTotal(data) + (b - data[i]) * weight
    decreases |data|
  {
    var altered := data[i := b];
    if i >= 2 {
      assert altered[2..] == data[2..][i - 2 := b];
      WordTotalUpdate(data[2..], i - 2, b, weight);
    } else if |data| >= 2 {
      assert altered[2..] == data[2..];
    }
  }

  /** Adding a non-zero amount smaller than 2^16 in size changes a
      number modulo 2^16. */
  lemma ModSeparates(t: int, delta: int)
    requires delta != 0 && -Modulus < delta < Modulus
    ensures (t + delta) % Modulus != t % Modulus
  {
  }

  /** Changing any one byte makes the old checksum fail. */
  lemma SingleByteChangeDetected(data: seq<byte>, i: nat, b: byte)
    requires i < |data| && data[i] != b
    ensures !Verifies(data[i := b], Checksum(data))
  {
    var altered := data[i := b];
    var weight := if (i % 2 == 0 && i + 1 < |data|) then 0x100 else 1;
    WordTotalUpdate(data, i, b, weight);
    var d := b - data[i];
    assert -0x100 < d < 0x100 && d != 0;
    var delta := d * weight;
    assert delta != 0 && -Modulus < delta < Modulus by {
      if weight == 1 {
        assert delta == d;
      } else {
        assert delta == d * 0x100;
      }
    }
    ModSeparates(WordTotal(data), delta);
    ChecksumComplementsTotal(data);
    ChecksumComplementsTotal(altered);
  }

  /** The unit test's example: the checksum of 01 02 03 04 is 0xFBF9, and
      01 02 03 05 does not verify against it. */
  lemma ChangedLastByteFails()
    ensures Checksum([1, 2, 3, 4]) == 0xFBF9
    ensures !Verifies([1, 2, 3, 5], Checksum([1, 2, 3, 4]))
  {
    var data: seq<byte> := [1, 2, 3, 4];
    assert WordTotal(data[2..]) == 0x0304 by {
      assert data[2..][2..] == [];
    }
    assert WordTotal(data) == 0x0406;
    ChecksumComplementsTotal(data);
    assert Checksum(data) == Mask - 0x0406 % Modulus == 0xFBF9;
    SingleByteChangeDetected(data, 3, 5);
    assert data[3 := 5] == [1, 2, 3, 5];
  }

  // ----- The loops -----

  /** `calculate_checksum(data)`: add the words from zero, then negate. */
  method CalculateChecksum(data: seq<byte>) returns (checksum: int)
    ensures checksum == Checksum(data)
  {
    var sum := 0;
    var i := 0;
    while i < |data|
      invariant i <= |data| + 1 && 0 <= sum <= Mask
      invariant i <= |data| ==> Accumulate(sum, data[i..]) == Accumulate(0, data)
      invariant i > |data| ==> sum == Accumulate(0, data)
    {
      var word := Word(data, i);
      assert Accumulate(sum, data[i..]) == Accumulate(Uint16Add(sum, word), if i + 2 <= |data| then data[i + 2..] else []) by {
        if i + 2 <= |data| {
          assert data[i..][2..] == data[i + 2..];
        }
      }
      sum := Uint16Add(sum, word);
      i := i + 2;
    }
    checksum := Uint16Neg(sum);
  }

  /** `verify_checksum(data, received_checksum)`: add the words to the
      received value and compare with all ones. The first addition asserts
      that the received value fits in 16 bits; with no data there is no
      addition and no such check. */
  method VerifyChecksum(data: seq<byte>, received: int) returns (r: Result<bool>)
    ensures data != [] && !(0 <= received <= Mask) ==> r.Err? && r.error.AssertionError?
    ensures data == [] ==> r == Ok(received == Mask)
    ensures 0 <= received <= Mask ==> r == Ok(Verifies(data, received))
  {
    if data == [] {
      return Ok(received == Mask);
    }
    if !(0 <= received <= Mask) {
      return Err(AssertionError("0 <= a <= mask"));
    }
    var sum := received;
    var i := 0;
    while i < |data|
      invariant i <= |data| + 1 && 0 <= sum <= Mask
      invariant i <= |data| ==> Accumulate(sum, data[i..]) == Accumulate(received, data)
      invariant i > |data| ==> sum == Accumulate(received, data)
    {
      var word := Word(data, i);
      assert Accumulate(sum, data[i..]) == Accumulate(Uint16Add(sum, word), if i + 2 <= |data| then data[i + 2..] else []) by {
        if i + 2 <= |data| {
          assert data[i..][2..] == data[i + 2..];
        }
      }
      sum := Uint16Add(sum, word);
      i := i + 2;
    }
    return Ok(sum == Mask);
  }
}
