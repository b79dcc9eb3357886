/** The table-driven CRC-32 of the frame check sequence of IEEE 802.3
    (section 3.2.9): reflected polynomial 0xEDB88320, register preset to all
    ones, result complemented. Packets are their data followed by the CRC
    written big-endian; single-bit errors are injected by flipping one bit.
    The program works on the bits of its bytes, so here a byte is an 8-bit
    vector and a CRC a 32-bit one. */
module Crc32 {
  import opened Exceptions

  /** The reflected generator polynomial. */
  const Polynomial: bv32 := 0xEDB8_8320

  /** One reflected shift-and-xor step of the table construction. */
  function Shift(c: bv32): bv32 {
    if c & 1 == 1 then (c >> 1) ^ Polynomial else c >> 1
  }

  /** `c` after `n` steps. */
  function Shifts(c: bv32, n: nat): bv32
    decreases n
  {
    if n == 0 then c else Shift(Shifts(c, n - 1))
  }

  /** `crc_table[i]`: `i` after eight steps, one per bit of a byte. */
  function Entry(i: bv32): bv32 {
    Shift(Shift(Shift(Shift(Shift(Shift(Shift(Shift(i))))))))
  }

  /** `crc_table[i]` for a list index `i`. */
  function TableAt(i: int): bv32
    requires 0 <= i < 256
  {
    Entry(i as bv32)
  }

  /** A byte-sized register value indexes the table at its own entry. */
  lemma TableAtEntry(x: bv32)
    requires x < 256
    ensures TableAt(x as int) == Entry(x)
  {
    assert (x as int) as bv32 == x;
  }

  /** The inner loop's eight rounds give the table entry. */
  lemma EightShifts(c: bv32)
    ensures Shifts(c, 8) == Entry(c)
  {
    assert Shifts(c, 2) == Shift(Shift(c));
    assert Shifts(c, 4) == Shift(Shift(Shifts(c, 2)));
    assert Shifts(c, 6) == Shift(Shift(Shifts(c, 4)));
  }

  /** The body of the byte loop: look the low byte of `crc ^ byte` up in
      the table and add the register shifted by a byte. */
  function Update(crc: bv32, b: bv8): bv32 {
    Entry((crc ^ b as bv32) & 0xFF) ^ (crc >> 8)
  }

  /** The register after the byte loop has consumed `data`. */
  function Register(data: seq<bv8>): bv32 {
    if data == [] then 0xFFFF_FFFF
    else Update(Register(data[..|data| - 1]), data[|data| - 1])
  }

  lemma UpdateByEntry(c: bv32, b: bv8, e: bv32)
    requires e == Entry((c ^ b as bv32) & 0xFF)
    ensures e ^ (c >> 8) == Update(c, b)
  {
  }

  lemma RegisterSnoc(data: seq<bv8>, k: nat)
    requires k < |data|
    ensures Register(data[..k + 1]) == Update(Register(data[..k]), data[k])
  {
    assert data[..k + 1][..k] == data[..k];
  }

  /** `crc32(data)`: the complemented register. */
  function Crc(data: seq<bv8>): (c: bv32)
    ensures data == [] ==> c == 0
  {
    Register(data) ^ 0xFFFF_FFFF
  }

  /** The table's entries for different indices differ already in their
      top byte. */
  lemma EntryTopByteInjective(x: bv32, y: bv32)
    requires x < 256 && y < 256 && Entry(x) >> 24 == Entry(y) >> 24
    ensures x == y
  {
  }

  /** One byte step never maps two registers to the same one. */
  lemma UpdateInjective(c: bv32, d: bv32, b: bv8)
    requires Update(c, b) == Update(d, b)
    ensures c == d
  {
    var x, y := (c ^ b as bv32) & 0xFF, (d ^ b as bv32) & 0xFF;
    assert Entry(x) >> 24 == Entry(y) >> 24 by {
      assert Update(c, b) >> 24 == Entry(x) >> 24;
      assert Update(d, b) >> 24 == Entry(y) >> 24;
    }
    EntryTopByteInjective(x, y);
  }

  /** From the same register, different bytes lead to different registers. */
  lemma UpdateSeparatesBytes(c: bv32, a: bv8, b: bv8)
    requires a != b
    ensures Update(c, a) != Update(c, b)
  {
    var x, y := (c ^ a as bv32) & 0xFF, (c ^ b as bv32) & 0xFF;
    assert x != y;
    if Entry(x) >> 24 == Entry(y) >> 24 {
      EntryTopByteInjective(x, y);
    }
    assert Update(c, a) >> 24 == Entry(x) >> 24;
    assert Update(c, b) >> 24 == Entry(y) >> 24;
  }

  /** Changing one byte of the data changes the CRC. */
  lemma {:induction false} CrcDetectsChangedByte(data: seq<bv8>, i: nat, b: bv8)
    requires i < |data| && data[i] != b
    ensures Crc(data[i := b]) != Crc(data)
  {
    RegisterSeparates(data, i, b, |data|);
    assert data[..|data|] == data && data[i := b][..|data|] == data[i := b];
  }

  /** The registers of the original and of the altered data differ from
      the changed byte on. */
  lemma {:induction false} RegisterSeparates(data: seq<bv8>, i: nat, b: bv8, n: nat)
    requires i < n <= |data| && data[i] != b
    ensures Register(data[i := b][..n]) != Register(data[..n])
    decreases n
  {
    var altered := data[i := b];
    assert altered[..n][..n - 1] == altered[..n - 1] && data[..n][..n - 1] == data[..n - 1];
    if n == i + 1 {
      assert altered[..n - 1] == data[..n - 1];
      UpdateSeparatesBytes(Register(data[..n - 1]), b, data[i]);
    } else {
      RegisterSeparates(data, i, b, n - 1);
      if Register(altered[..n]) == Register(data[..n]) {
        UpdateInjective(Register(altered[..n - 1]), Register(data[..n - 1]), data[n - 1]);
      }
    }
  }

  /** The check value of CRC-32: the CRC of the ASCII digits "123456789". */
  lemma CheckValue()
    ensures Crc([0x31, 0x32, 0x33, 0x34, 0x35, 0x36, 0x37, 0x38, 0x39]) == 0xCBF4_3926
  {
    var digits: seq<bv8> := [0x31, 0x32, 0x33, 0x34, 0x35, 0x36, 0x37, 0x38, 0x39];
    var registers: seq<bv32> := [0xFFFF_FFFF, 0x7C23_1048, 0xB0AC_BB32, 0x77B7_9C2D, 0x641C_1F5C,
                                 0x340A_C5E3, 0xF68D_2C9E, 0xAFFC_9660, 0x651F_2550, 0x340B_C6D9];
    for n := 0 to 9
      invariant Register(digits[..n]) == registers[n]
    {
      assert digits[..n + 1][..n] == digits[..n];
      assert Update(registers[n], digits[n]) == registers[n + 1];
    }
    assert digits[..9] == digits;
  }

  // ----- `crc32` step by step -----

  /** The first loop of `crc32`: fill a 256-entry table. */
  method BuildTable() returns (table: array<bv32>)
    ensures fresh(table) && table.Length == 256
    ensures forall i :: 0 <= i < 256 ==> table[i] == TableAt(i)
  {
    table := new bv32[256];
    for i := 0 to 256
      invariant forall n :: 0 <= n < i ==> table[n] == TableAt(n)
    {
      var crc: bv32 := i as bv32;
      for j := 0 to 8
        invariant crc == Shifts(i as bv32, j)
      {
        if crc & 1 == 1 {
          crc := (crc >> 1) ^ Polynomial;
        } else {
          crc := crc >> 1;
        }
      }
      EightShifts(i as bv32);
      table[i] := crc;
    }
  }

  /** `crc = crc_table[(crc ^ byte) & 0xFF] ^ (crc >> 8)`: the table lookup
      computes `Update`. */
  method UpdateStep(table: array<bv32>, register: bv32, b: bv8) returns (next: bv32)
    requires table.Length == 256
    requires forall i :: 0 <= i < 256 ==> table[i] == TableAt(i)
    ensures next == Update(register, b)
  {
    var e := table[((register ^ b as bv32) & 0xFF) as int];
    TableAtEntry((register ^ b as bv32) & 0xFF);
    UpdateByEntry(register, b, e);
    next := e ^ (register >> 8);
  }

  /** `crc32(bytes_data)`: build the table, then run the register over the
      data and complement it. */
  method ComputeCrc(data: seq<bv8>) returns (crc: bv32)
    ensures crc == Crc(data)
  {
    var table := BuildTable();
    var register: bv32 := 0xFFFF_FFFF;
    for k := 0 to |data|
      invariant forall i :: 0 <= i < 256 ==> table[i] == TableAt(i)
      invariant register == Register(data[..k])
    {
      RegisterSnoc(data, k);
      register := UpdateStep(table, register, data[k]);
    }
    assert data[..|data|] == data;
    crc := register ^ 0xFFFF_FFFF;
  }

  // ----- Packets -----

  /** `Packet(data)`: the data and its CRC. */
  datatype Packet = Packet(data: seq<bv8>, crc: bv32)

  function NewPacket(data: seq<bv8>): (p: Packet)
    ensures p.data == data && p.crc == Crc(data)
  {
    Packet(data, Crc(data))
  }

  /** `crc.to_bytes(4, byteorder="big")`. */
  function BigEndian(c: bv32): (b: seq<bv8>)
    ensures |b| == 4
  {
    [(c >> 24) as bv8, ((c >> 16) & 0xFF) as bv8, ((c >> 8) & 0xFF) as bv8, (c & 0xFF) as bv8]
  }

  /** `int.from_bytes(b, byteorder="big")` of four bytes. */
  function FromBigEndian(b: seq<bv8>): (c: bv32)
    requires |b| == 4
    ensures BigEndian(c) == b
  {
    ((b[0] as bv32) << 24) | ((b[1] as bv32) << 16) | ((b[2] as bv32) << 8) | (b[3] as bv32)
  }

  lemma FromBigEndianInverse(c: bv32)
    ensures FromBigEndian(BigEndian(c)) == c
  {
  }

  /** `encode_packet`: the data followed by the CRC in four bytes, most
      significant first. */
  function Encode(p: Packet): (e: seq<bv8>)
    ensures |e| == |p.data| + 4
    ensures e[..|p.data|] == p.data && FromBigEndian(e[|p.data|..]) == p.crc
  {
    FromBigEndianInverse(p.crc);
    p.data + BigEndian(p.crc)
  }

  /** `encoded_packet[:-4]`: empty when there are fewer than four bytes. */
  function Body(encoded: seq<bv8>): seq<bv8> {
    if |encoded| >= 4 then encoded[..|encoded| - 4] else []
  }

  /** `int.from_bytes(encoded_packet[-4:], "big")`: the last four bytes, or
      all of them when there are fewer; leading zero bytes do not change a
      big-endian value. */
  function Trailer(encoded: seq<bv8>): bv32 {
    if |encoded| >= 4 then FromBigEndian(encoded[|encoded| - 4..])
    else FromBigEndian(seq(4 - |encoded|, _ => 0) + encoded)
  }

  /** `verify_crc`: the CRC of all but the last four bytes equals the
      number they spell. */
  predicate VerifyCrc(encoded: seq<bv8>)
    ensures |encoded| >= 4 ==> (VerifyCrc(encoded) <==> encoded == Encode(NewPacket(Body(encoded))))
    ensures |encoded| < 4 ==> (VerifyCrc(encoded) <==> forall i :: 0 <= i < |encoded| ==> encoded[i] == 0)
  {
    if |encoded| >= 4 then
      var body, tail := encoded[..|encoded| - 4], encoded[|encoded| - 4..];
      assert encoded == body + tail;
      FromBigEndianInverse(Crc(body));
      Crc(Body(encoded)) == Trailer(encoded)
    else
      ShortTrailer(encoded);
      Crc(Body(encoded)) == Trailer(encoded)
  }

  /** Fewer than four bytes spell zero exactly when they are all zero. */
  lemma ShortTrailer(encoded: seq<bv8>)
    requires |encoded| < 4
    ensures Trailer(encoded) == 0 <==> forall i :: 0 <= i < |encoded| ==> encoded[i] == 0
  {
    var padded := seq(4 - |encoded|, _ => 0) + encoded;
    assert forall i :: 0 <= i < |encoded| ==> encoded[i] == padded[4 - |encoded| + i];
    if forall i :: 0 <= i < |encoded| ==> encoded[i] == 0 {
      assert padded == [0, 0, 0, 0];
    } else {
      assert padded != BigEndian(0);
    }
  }

  /** Every encoded packet passes the check. */
  lemma VerifyEncoded(data: seq<bv8>)
    ensures VerifyCrc(Encode(NewPacket(data)))
  {
    var e := Encode(NewPacket(data));
    assert Body(e) == data;
    assert e[|e| - 4..] == e[|data|..];
  }

  // ----- Error injection -----

  /** `1 << bit_index`. */
  function Mask(k: nat): (m: bv8)
    requires k < 8
    ensures m != 0
  {
    (1 as bv8) << k
  }

  /** What `make_error` returns when it does not raise: the packet with
      bit `k` of byte `i` flipped. */
  function WithError(encoded: seq<bv8>, i: nat, k: nat): (r: seq<bv8>)
    requires i < |encoded| && k < 8
    ensures |r| == |encoded| && r[i] ^ encoded[i] == Mask(k)
    ensures forall j :: 0 <= j < |r| && j != i ==> r[j] == encoded[j]
  {
    encoded[i := encoded[i] ^ Mask(k)]
  }

  /** `make_error(encoded_packet, byte_index, bit_index)`: copy the packet
      into a `bytearray` and flip one bit in place. A negative byte index
      counts from the end; reading the byte comes before the shift and the
      store, so a bad index raises `IndexError` first, then a negative
      shift count or a value past 255 raises `ValueError`. */
  method MakeError(encoded: seq<bv8>, byteIndex: int, bitIndex: int) returns (r: Result<seq<bv8>>)
    ensures (byteIndex < -|encoded| || byteIndex >= |encoded|) ==> r.Err? && r.error.IndexError?
    ensures -|encoded| <= byteIndex < |encoded| && !(0 <= bitIndex < 8) ==> r.Err? && r.error.ValueError?
    ensures -|encoded| <= byteIndex < |encoded| && 0 <= bitIndex < 8 ==>
              r == Ok(WithError(encoded, if byteIndex < 0 then byteIndex + |encoded| else byteIndex, bitIndex))
  {
    var altered := new bv8[|encoded|](j requires 0 <= j < |encoded| => encoded[j]);
    if byteIndex < -|encoded| || byteIndex >= |encoded| {
      return Err(IndexError("bytearray index out of range"));
    }
    var i := if byteIndex < 0 then byteIndex + |encoded| else byteIndex;
    if bitIndex < 0 {
      return Err(ValueError("negative shift count"));
    }
    if bitIndex >= 8 {
      return Err(ValueError("byte must be in range(0, 256)"));
    }
    altered[i] := altered[i] ^ Mask(bitIndex);
    assert altered[..] == WithError(encoded, i, bitIndex);
    return Ok(altered[..]);
  }

  /** Flipping the same bit twice restores the packet. */
  lemma WithErrorTwice(encoded: seq<bv8>, i: nat, k: nat)
    requires i < |encoded| && k < 8
    ensures WithError(WithError(encoded, i, k), i, k) == encoded
  {
    var b := encoded[i];
    assert (b ^ Mask(k)) ^ Mask(k) == b;
  }

  /** A single flipped bit anywhere in an encoded packet, in the data or in
      the CRC, makes the check fail. */
  lemma SingleBitErrorDetected(data: seq<bv8>, i: nat, k: nat)
    requires i < |data| + 4 && k < 8
    ensures !VerifyCrc(WithError(Encode(NewPacket(data)), i, k))
  {
    var e := Encode(NewPacket(data));
    var altered := WithError(e, i, k);
    assert Trailer(e) == Crc(data) by {
      assert e[|e| - 4..] == e[|data|..];
    }
    if i < |data| {
      assert Body(altered) == data[i := altered[i]];
      assert altered[|altered| - 4..] == e[|e| - 4..];
      CrcDetectsChangedByte(data, i, altered[i]);
    } else {
      assert Body(altered) == data;
      var t, t' := e[|e| - 4..], altered[|altered| - 4..];
      assert t'[i - |data|] != t[i - |data|];
    }
  }
}
