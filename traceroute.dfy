/** `lab11/traceroute.py`: the Internet checksum of RFC 1071 shaped like
    the C code of its section 4.1 (words read little-endian, the 32-bit sum
    folded twice, complemented and byte-swapped), the ICMP echo request it
    protects, and the bookkeeping of `trace_route`: one line per TTL, a
    fixed number of probes per TTL, and a packet id that each probe sends
    as one more than the last id modulo 65535, and that the id unpacked
    from a reply then overwrites. `struct` packs with the host's byte
    order; the host here is little-endian. Sockets, clocks and name lookups
    are inputs. */
module Traceroute {
  import opened Bytes
  import opened Exceptions

  const EchoRequestType := 8
  const EchoReplyType := 0
  const TimeExceededType := 11

  /** Packet ids are taken modulo this. */
  const IdModulus := 65535

  // ----- calculate_checksum -----

  /** The `j`-th 16-bit word, low byte first. */
  function Word(s: seq<byte>, j: nat): (w: int)
    requires 2 * j + 1 < |s|
    ensures 0 <= w < 0x1_0000
  {
    s[2 * j + 1] as int * 256 + s[2 * j]
  }

  /** The first `n` words added up. */
  function Words(s: seq<byte>, n: nat): (t: nat)
    requires 2 * n <= |s|
  {
    if n == 0 then 0 else Words(s, n - 1) + Word(s, n - 1)
  }

  /** `max_count`: the length rounded down to even. */
  function MaxCount(s: seq<byte>): (m: nat)
    ensures m <= |s| < m + 2
  {
    (|s| / 2) * 2
  }

  /** A last byte without a partner counts at its plain value. */
  function Tail(s: seq<byte>): (t: nat)
    ensures t < 256
  {
    if MaxCount(s) < |s| then s[|s| - 1] else 0
  }

  /** Every word and the tail added up, with no reduction. */
  function Total(s: seq<byte>): nat {
    Words(s, |s| / 2) + Tail(s)
  }

  /** `sm` after the first `n` rounds of the loop: reduced with
      `& 0xffffffff` after every addition. */
  function RunningSum(s: seq<byte>, n: nat): (r: nat)
    requires 2 * n <= |s|
    ensures r < TwoTo32
  {
    if n == 0 then 0 else (RunningSum(s, n - 1) + Word(s, n - 1)) % TwoTo32
  }

  /** `sm = (sm >> 16) + (sm & 0xffff); sm = sm + (sm >> 16)`. */
  function Fold(x: nat): nat {
    var y := x / 0x1_0000 + x % 0x1_0000;
    y + y / 0x1_0000
  }

  /** `answer >> 8 | (answer << 8 & 0xff00)`: the two bytes exchanged; the
      two halves share no bit, so the `|` is a sum. */
  function Swap(a: nat): (r: nat)
    requires a < 0x1_0000
    ensures r < 0x1_0000
  {
    a / 0x100 + (a % 0x100) * 0x100
  }

  /** `~x & 0xffff`: on Python integers `~x` is `-x - 1`, and masking
      with 0xffff is reduction modulo 2^16. */
  function Complement(x: int): (r: nat)
    ensures r < 0x1_0000
  {
    (-x - 1) % 0x1_0000
  }

  /** What `calculate_checksum(s)` returns. */
  function Checksum(s: seq<byte>): (c: nat)
    ensures c < 0x1_0000
  {
    var sm := (RunningSum(s, |s| / 2) + Tail(s)) % TwoTo32;
    Swap(Complement(Fold(sm)))
  }

  /** `calculate_checksum(source_string)`: the sum loop, then the folds,
      the complement and the byte swap. */
  method CalculateChecksum(s: seq<byte>) returns (answer: int)
    ensures answer == Checksum(s)
  {
    var sm: int := SumWords(s);
    ghost var total := sm;
    sm := sm / 0x1_0000 + sm % 0x1_0000;
    sm := sm + sm / 0x1_0000;
    assert sm == Fold(total);
    answer := (-sm - 1) % 0x1_0000;
    assert answer == Complement(Fold(total));
    answer := answer / 0x100 + (answer % 0x100) * 0x100;
  }

  /** The loop of `calculate_checksum`: the words added up and reduced
      with `& 0xffffffff` after each addition, then the odd last byte. */
  method SumWords(s: seq<byte>) returns (sm: nat)
    ensures sm == (RunningSum(s, |s| / 2) + Tail(s)) % TwoTo32
  {
    sm := 0;
    var maxCount := (|s| / 2) * 2;
    var count := 0;
    ghost var n := 0;
    while count < maxCount
      invariant count == 2 * n <= maxCount
      invariant sm == RunningSum(s, n)
    {
      var val := s[count + 1] as int * 256 + s[count];
      sm := sm + val;
      sm := sm % TwoTo32;
      count := count + 2;
      n := n + 1;
    }
    assert n == |s| / 2;
    if maxCount < |s| {
      sm := sm + s[|s| - 1];
      sm := sm % TwoTo32;
    } else {
      SmallMod(sm);
    }
  }

  // ----- What the checksum computes -----

  /** Reducing after every addition is reducing once at the end. */
  lemma {:induction false} RunningSumReduces(s: seq<byte>, n: nat)
    requires 2 * n <= |s|
    ensures RunningSum(s, n) == Words(s, n) % TwoTo32
    decreases n
  {
    if n > 0 {
      RunningSumReduces(s, n - 1);
      ModOfSum(Words(s, n - 1), Word(s, n - 1));
    }
  }

  lemma ModOfSum(x: nat, y: nat)
    ensures (x % TwoTo32 + y) % TwoTo32 == (x + y) % TwoTo32
  {
    var q := x / TwoTo32;
    assert x == q * TwoTo32 + x % TwoTo32;
    assert x + y == (x % TwoTo32 + y) + q * TwoTo32;
  }

  /** The sum the loop ends with is the total modulo 2^32. */
  lemma ChecksumOfTotal(s: seq<byte>)
    ensures Checksum(s) == Swap(Complement(Fold(Total(s) % TwoTo32)))
  {
    RunningSumReduces(s, |s| / 2);
    ModOfSum(Words(s, |s| / 2), Tail(s));
  }

  /** The one's-complement sum: the low 16 bits of the folded sum. */
  function OnesSum(x: nat): nat {
    Fold(x) % 0x1_0000
  }

  /** Folding a 32-bit sum twice keeps it modulo 0xFFFF (2^16 is 1 modulo
      0xFFFF) and gives zero only for a zero sum: the one's-complement sum
      of section 1 of RFC 1071, with 0xFFFF as the non-zero form of zero. */
  lemma OnesSumCongruent(x: nat)
    requires x < TwoTo32
    ensures 0 <= OnesSum(x) <= 0xFFFF
    ensures OnesSum(x) % 0xFFFF == x % 0xFFFF
    ensures OnesSum(x) == 0 <==> x == 0
  {
    var hi, lo := x / 0x1_0000, x % 0x1_0000;
    var y := hi + lo;
    assert x == hi * 0x1_0000 + lo;
    assert x == hi * 0xFFFF + y;
    assert y % 0xFFFF == x % 0xFFFF by {
      ModOfMultiple(hi, y);
    }
    if y >= 0x1_0000 {
      assert Fold(x) == y + 1 && OnesSum(x) == y - 0xFFFF;
      assert (y - 0xFFFF) % 0xFFFF == y % 0xFFFF;
    } else {
      assert Fold(x) == y && OnesSum(x) == y;
    }
  }

  lemma ModOfMultiple(k: nat, y: nat)
    ensures (k * 0xFFFF + y) % 0xFFFF == y % 0xFFFF
  {
  }

  /** The empty input: the sum is zero and its complement 0xFFFF, which
      the byte swap keeps. */
  lemma ChecksumOfEmpty()
    ensures Checksum([]) == 0xFFFF
  {
    assert RunningSum([], 0) == 0 && Tail([]) == 0;
    assert Fold(0) == 0;
    assert Complement(0) == 0xFFFF;
    assert Swap(0xFFFF) == 0xFFFF;
  }

  /** The result is the byte-swapped complement of the one's-complement
      sum of the whole input, reduced modulo 2^32. */
  lemma ChecksumComplementsOnesSum(s: seq<byte>)
    ensures Checksum(s) == Swap(0xFFFF - OnesSum(Total(s) % TwoTo32))
  {
    ChecksumOfTotal(s);
    ComplementOfLowBits(Fold(Total(s) % TwoTo32));
  }

  /** The checksum of an input whose total is known and below 2^32. */
  lemma ChecksumOfKnownTotal(s: seq<byte>, t: nat, c: nat)
    requires Total(s) == t < TwoTo32 && c == Swap(0xFFFF - OnesSum(t))
    ensures Checksum(s) == c
  {
    ChecksumComplementsOnesSum(s);
    SmallMod(t);
  }

  lemma SmallMod(t: nat)
    requires t < TwoTo32
    ensures t % TwoTo32 == t
  {
  }

  /** `~x & 0xffff` complements the low 16 bits of `x`. */
  lemma ComplementOfLowBits(x: int)
    ensures Complement(x) == 0xFFFF - x % 0x1_0000
  {
    var q, r := x / 0x1_0000, x % 0x1_0000;
    assert -x - 1 == (-q - 1) * 0x1_0000 + (0xFFFF - r);
  }

  // ----- Echo requests -----

  /** `struct.pack('bbHHh', 8, 0, checksum, id, sequence)` on a
      little-endian host. */
  function PackEcho(checksum: int, id: int, sequence: int): (h: seq<byte>)
    requires 0 <= checksum < 0x1_0000 && 0 <= id < 0x1_0000 && -0x8000 <= sequence < 0x8000
    ensures |h| == 8
  {
    var u := sequence % 0x1_0000;
    [EchoRequestType, 0, checksum % 0x100, checksum / 0x100, id % 0x100, id / 0x100, u % 0x100, u / 0x100]
  }

  /** `socket.htons` on a little-endian host: the bytes exchanged. */
  function Htons(x: nat): (r: nat)
    requires x < 0x1_0000
    ensures r < 0x1_0000
  {
    Swap(x)
  }

  /** `create_packet(id)` as written: the checksum goes into the header
      without `htons`, with the payload `struct.pack('d', time.time())`
      given as `stamp`. */
  function CreatePacket(id: int, stamp: seq<byte>): (p: seq<byte>)
    requires 0 <= id < 0x1_0000
    ensures |p| == 8 + |stamp|
  {
    var checksum := Checksum(PackEcho(0, id, 1) + stamp);
    PackEcho(checksum, id, 1) + stamp
  }

  /** An echo request whose checksum field is written through `htons`,
      as `Ping.create_packet` writes it. */
  function CreateCheckedPacket(id: int, sequence: int, payload: seq<byte>): (p: seq<byte>)
    requires 0 <= id < 0x1_0000 && -0x8000 <= sequence < 0x8000
    ensures |p| == 8 + |payload|
    ensures p[8..] == payload
  {
    var checksum := Checksum(PackEcho(0, id, sequence) + payload);
    PackEcho(Htons(checksum), id, sequence) + payload
  }

  /** At the epoch the time stamp packs to eight zero bytes; the first
      request of a trace (id 1) then carries a checksum field whose
      little-endian reading is 0xF5FF, and the checksum of the whole
      request comes out 0xF609 where a correct one comes out 0. */
  lemma CreatePacketChecksumSwapped(stamp: seq<byte>)
    requires stamp == [0, 0, 0, 0, 0, 0, 0, 0]
    ensures var p := CreatePacket(1, stamp);
            Word(p, 1) == 0xF5FF && Checksum(p) == 0xF609
  {
    SwappedPacketBytes(stamp);
    SwappedPacketChecksum(CreatePacket(1, stamp));
  }

  /** The checksum of those bytes. */
  lemma SwappedPacketChecksum(p: seq<byte>)
    requires p == [8, 0, 0xFF, 0xF5, 1, 0, 1, 0, 0, 0, 0, 0, 0, 0, 0, 0]
    ensures Word(p, 1) == 0xF5FF && Checksum(p) == 0xF609
  {
    WordsOfHeader(p, 0xF5FF, 0xF609);
    assert Swap(0xFFFF - OnesSum(0xF609)) == 0xF609 by {
      assert Fold(0xF609) == 0xF609;
    }
    ChecksumOfKnownTotal(p, 0xF609, 0xF609);
  }

  /** The bytes of that request: the field 0xF5FF goes in low byte first. */
  lemma SwappedPacketBytes(stamp: seq<byte>)
    requires stamp == [0, 0, 0, 0, 0, 0, 0, 0]
    ensures CreatePacket(1, stamp) == [8, 0, 0xFF, 0xF5, 1, 0, 1, 0, 0, 0, 0, 0, 0, 0, 0, 0]
  {
    ZeroFieldChecksum(stamp);
    CreatePacketOfField(1, stamp, 0xF5FF);
    SwappedHeader();
  }

  lemma SwappedHeader()
    ensures PackEcho(0xF5FF, 1, 1) == [8, 0, 0xFF, 0xF5, 1, 0, 1, 0]
  {
  }

  /** A request is its header, carrying the checksum of the request with
      a zero field, followed by the stamp. */
  lemma CreatePacketOfField(id: int, stamp: seq<byte>, field: nat)
    requires 0 <= id < 0x1_0000 && field == Checksum(PackEcho(0, id, 1) + stamp)
    ensures CreatePacket(id, stamp) == PackEcho(field, id, 1) + stamp
  {
  }

  lemma ZeroFieldChecksum(stamp: seq<byte>)
    requires stamp == [0, 0, 0, 0, 0, 0, 0, 0]
    ensures Checksum(PackEcho(0, 1, 1) + stamp) == 0xF5FF
  {
    var p0 := PackEcho(0, 1, 1) + stamp;
    assert p0 == [8, 0, 0, 0, 1, 0, 1, 0, 0, 0, 0, 0, 0, 0, 0, 0];
    WordsOfHeader(p0, 0, 10);
    assert Swap(0xFFFF - OnesSum(10)) == 0xF5FF by {
      assert Fold(10) == 10;
    }
    ChecksumOfKnownTotal(p0, 10, 0xF5FF);
  }

  /** The words of a 16-byte request with id 1, sequence 1 and a zero
      payload. */
  lemma WordsOfHeader(p: seq<byte>, field: nat, total: nat)
    requires field < 0x1_0000 && total == 10 + field
    requires p == [8, 0, field % 0x100, field / 0x100, 1, 0, 1, 0, 0, 0, 0, 0, 0, 0, 0, 0]
    ensures Total(p) == total
  {
    assert Words(p, 1) == 8;
    assert Words(p, 2) == 8 + field;
    assert Words(p, 3) == 9 + field;
    assert Words(p, 4) == total;
    assert Words(p, 5) == total;
    assert Words(p, 6) == total;
    assert Words(p, 7) == total;
    assert Words(p, 8) == total;
  }

  /** Changing only the checksum field of an echo request (bytes 2 and 3,
      the second word) changes the total by the change of that word. */
  lemma {:induction false} WordsOfChangedField(p0: seq<byte>, p: seq<byte>, n: nat)
    requires |p| == |p0| >= 4 && 2 <= n && 2 * n <= |p|
    requires forall k :: 0 <= k < |p| && k != 2 && k != 3 ==> p[k] == p0[k]
    ensures Words(p, n) == Words(p0, n) - Word(p0, 1) + Word(p, 1)
    decreases n
  {
    if n > 2 {
      WordsOfChangedField(p0, p, n - 1);
      assert p[2 * n - 2] == p0[2 * n - 2] && p[2 * n - 1] == p0[2 * n - 1];
    } else {
      assert p[0] == p0[0] && p[1] == p0[1];
      assert Words(p, 1) == Words(p0, 1);
    }
  }

  /** No word exceeds 0xFFFF, so the words of a 128 KiB input add up to
      less than 2^32 and the loop never reduces. */
  lemma {:induction false} WordsBound(s: seq<byte>, n: nat)
    requires 2 * n <= |s|
    ensures Words(s, n) <= n * 0xFFFF
    decreases n
  {
    if n > 0 {
      WordsBound(s, n - 1);
    }
  }

  lemma TotalOfChangedField(p0: seq<byte>, p: seq<byte>)
    requires |p| == |p0| >= 4
    requires forall k :: 0 <= k < |p| && k != 2 && k != 3 ==> p[k] == p0[k]
    ensures Total(p) == Total(p0) - Word(p0, 1) + Word(p, 1)
  {
    WordsOfChangedField(p0, p, |p| / 2);
    assert Tail(p) == Tail(p0);
  }

  lemma TotalBound(s: seq<byte>)
    requires |s| <= 0x2_0000
    ensures Total(s) <= 0xFFFF_00FF
  {
    WordsBound(s, |s| / 2);
  }

  /** Adding the complement of a sum's one's-complement sum gives a sum
      whose one's-complement sum is 0xFFFF. */
  lemma ComplementedSum(t0: nat)
    requires t0 <= 0xFFFF_00FF
    ensures t0 + 0xFFFF - OnesSum(t0) < TwoTo32
    ensures OnesSum(t0 + 0xFFFF - OnesSum(t0)) == 0xFFFF
  {
    OnesSumCongruent(t0);
    var o := OnesSum(t0);
    var t := t0 + 0xFFFF - o;
    assert t % 0xFFFF == 0 by {
      DiffOfCongruent(t0, o);
      ModOfMultiple(1, t0 - o);
    }
    OnesSumCongruent(t);
    PositiveMultiple(OnesSum(t));
  }

  /** The only multiple of 0xFFFF from 1 to 0xFFFF is 0xFFFF. */
  lemma PositiveMultiple(x: int)
    requires 0 < x <= 0xFFFF && x % 0xFFFF == 0
    ensures x == 0xFFFF
  {
  }

  /** Writing the complement of the one's-complement sum into the zeroed
      checksum field makes the checksum of the whole packet zero, the test
      of section 1 of RFC 1071. */
  lemma ComplementFieldVerifies(p0: seq<byte>, p: seq<byte>)
    requires 4 <= |p| == |p0| <= 0x2_0000
    requires p0[2] == 0 && p0[3] == 0
    requires forall k :: 0 <= k < |p| && k != 2 && k != 3 ==> p[k] == p0[k]
    requires Word(p, 1) == 0xFFFF - OnesSum(Total(p0) % TwoTo32)
    ensures Checksum(p) == 0
  {
    var t0 := Total(p0);
    TotalBound(p0);
    SmallMod(t0);
    TotalOfChangedField(p0, p);
    assert Word(p0, 1) == 0;
    var t := Total(p);
    assert t == t0 + 0xFFFF - OnesSum(t0);
    ComplementedSum(t0);
    assert Swap(0xFFFF - OnesSum(t)) == 0;
    ChecksumOfKnownTotal(p, t, 0);
  }

  lemma DiffOfCongruent(a: nat, b: nat)
    requires b <= a && a % 0xFFFF == b % 0xFFFF
    ensures (a - b) % 0xFFFF == 0
  {
    var qa, qb := a / 0xFFFF, b / 0xFFFF;
    assert a - b == (qa - qb) * 0xFFFF;
  }

  /** A request built with `htons` passes the checksum test, for any id,
      sequence number and payload that fit in a datagram. */
  lemma CheckedPacketVerifies(id: int, sequence: int, payload: seq<byte>)
    requires 0 <= id < 0x1_0000 && -0x8000 <= sequence < 0x8000
    requires |payload| <= 0xFFFF
    ensures Checksum(CreateCheckedPacket(id, sequence, payload)) == 0
  {
    var p0 := PackEcho(0, id, sequence) + payload;
    var c := Checksum(p0);
    var p := CreateCheckedPacket(id, sequence, payload);
    ChecksumComplementsOnesSum(p0);
    var v := 0xFFFF - OnesSum(Total(p0) % TwoTo32);
    assert Htons(c) == v by {
      SwapTwice(v);
    }
    assert Word(p, 1) == v;
    ComplementFieldVerifies(p0, p);
  }

  lemma SwapTwice(a: nat)
    requires a < 0x1_0000
    ensures Swap(Swap(a)) == a
  {
    var hi, lo := a / 0x100, a % 0x100;
    assert a == hi * 0x100 + lo;
    assert Swap(a) == lo * 0x100 + hi;
  }

  // ----- trace_route -----

  /** `struct.unpack('bbHHh', header)` of the eight ICMP header bytes on a
      little-endian host: signed type and code, then two unsigned 16-bit
      fields and a signed one. */
  datatype IcmpHeader = IcmpHeader(icmpType: int, code: int, checksum: int, id: int, sequence: int)

  function Signed8(b: byte): int {
    if b < 0x80 then b else b - 0x100
  }

  function Unpack(h: seq<byte>): (r: IcmpHeader)
    requires |h| == 8
    ensures 0 <= r.id < 0x1_0000 && 0 <= r.checksum < 0x1_0000
    ensures -0x80 <= r.icmpType < 0x80 && -0x80 <= r.code < 0x80
  {
    var sequence := h[7] as int * 0x100 + h[6];
    IcmpHeader(Signed8(h[0]), Signed8(h[1]), h[3] as int * 0x100 + h[2], h[5] as int * 0x100 + h[4],
               if sequence < 0x8000 then sequence else sequence - 0x1_0000)
  }

  /** What one `recvfrom` gives: a timeout or an IP datagram. */
  datatype Arrival = Timeout | Received(packet: seq<byte>)

  /** One probe: its TTL, the id it was sent with, and the header of the
      reply if one came. */
  datatype Probe = Probe(ttl: int, id: int, reply: Option<IcmpHeader>)

  /** The reply to the `n`-th probe, if the `n`-th arrival is a datagram
      long enough to hold an IP and an ICMP header; arrivals past the end
      are timeouts. */
  function ReplyAt(arrivals: seq<Arrival>, n: nat): Option<IcmpHeader> {
    if n < |arrivals| && arrivals[n].Received? && |arrivals[n].packet| >= 28
    then Some(Unpack(arrivals[n].packet[20..28]))
    else None
  }

  predicate TooShort(arrivals: seq<Arrival>, n: nat) {
    n < |arrivals| && arrivals[n].Received? && |arrivals[n].packet| < 28
  }

  predicate EchoReply(p: Probe) {
    p.reply.Some? && p.reply.value.icmpType == EchoReplyType
  }

  /** `packet_id` after a probe: the reply's unpacked id overwrites it. */
  function IdAfter(p: Probe): int {
    if p.reply.Some? then p.reply.value.id else p.id
  }

  /** `(packet_id + 1) % 65535`. */
  function NextId(previous: int): (id: int)
    ensures 0 <= id < IdModulus
  {
    (previous + 1) % IdModulus
  }

  /** The ids the probes were sent with: each is one more than the
      `packet_id` before it, modulo 65535, starting from 0. */
  predicate IdsChained(probes: seq<Probe>) {
    && (|probes| > 0 ==> probes[0].id == NextId(0))
    && forall n :: 0 < n < |probes| ==> probes[n].id == NextId(IdAfter(probes[n - 1]))
  }

  /** What the probes so far record: the ids they were sent with and the
      replies to them. */
  predicate Recorded(probes: seq<Probe>, arrivals: seq<Arrival>) {
    && IdsChained(probes)
    && forall n :: 0 <= n < |probes| ==> probes[n].reply == ReplyAt(arrivals, n)
  }

  /** `packet_id` after the probes so far. */
  function LastId(probes: seq<Probe>): int {
    if probes == [] then 0 else IdAfter(probes[|probes| - 1])
  }

  /** Appending a probe sent with the next id and answered by the next
      arrival keeps the record. */
  lemma RecordedSnoc(probes: seq<Probe>, arrivals: seq<Arrival>, probe: Probe)
    requires Recorded(probes, arrivals)
    requires probe.id == NextId(LastId(probes)) && probe.reply == ReplyAt(arrivals, |probes|)
    ensures Recorded(probes + [probe], arrivals) && LastId(probes + [probe]) == IdAfter(probe)
  {
    var extended := probes + [probe];
    forall n | 0 < n < |extended|
      ensures extended[n].id == NextId(IdAfter(extended[n - 1]))
    {
      if n == |probes| {
        assert extended[n - 1] == probes[|probes| - 1];
      } else {
        assert extended[n] == probes[n] && extended[n - 1] == probes[n - 1];
      }
    }
  }

  /** One pass of the inner loop of `trace_route`: the next packet id is
      sent, and the next arrival is either a timeout or a datagram whose
      bytes 20 to 28 are unpacked as the ICMP header. */
  method ProbeOnce(ttl: int, arrivals: seq<Arrival>, sent: nat, packetId: int)
    returns (probe: Probe, r: Result<()>)
    ensures r.Ok? ==> probe == Probe(ttl, NextId(packetId), ReplyAt(arrivals, sent))
    ensures r.Err? ==> r.error.StructError? && TooShort(arrivals, sent)
  {
    var id := (packetId + 1) % IdModulus;
    var arrival := if sent < |arrivals| then arrivals[sent] else Timeout;
    r := Ok(());
    match arrival
    case Timeout =>
      probe := Probe(ttl, id, None);
    case Received(packet) =>
      if |packet| < 28 {
        probe := Probe(ttl, id, None);
        r := Err(StructError("unpack requires a buffer of 8 bytes"));
        return;
      }
      var header := Unpack(packet[20..28]);
      probe := Probe(ttl, id, Some(header));
  }

  /** The length of `range(count)`. */
  function RangeLength(count: int): (n: nat)
    ensures count >= 0 ==> n == count
    ensures count < 0 ==> n == 0
  {
    if count < 0 then 0 else count
  }

  /** The inner loop of `trace_route` for one TTL: `packet_count` probes,
      each sent with the next packet id and answered by the next arrival;
      an unpacked reply's id becomes `packet_id`. It reports whether an
      echo reply came. */
  method ProbeTtl(ttl: int, packetCount: int, arrivals: seq<Arrival>, before: seq<Probe>, idBefore: int)
    returns (probes: seq<Probe>, packetId: int, found: bool, r: Result<()>)
    requires Recorded(before, arrivals) && idBefore == LastId(before)
    requires 1 <= ttl && forall n :: 0 <= n < |before| ==> 1 <= before[n].ttl < ttl
    requires TtlsAscending(before) && forall n :: 0 <= n < |before| ==> !EchoReply(before[n])
    ensures Recorded(probes, arrivals) && packetId == LastId(probes)
    ensures |before| <= |probes| && probes[..|before|] == before
    ensures forall n :: 0 <= n < |probes| ==> 1 <= probes[n].ttl <= ttl
    ensures TtlsAscending(probes)
    ensures forall n :: 0 <= n < |probes| && EchoReply(probes[n]) ==> probes[n].ttl == ttl
    ensures found <==> exists n :: 0 <= n < |probes| && EchoReply(probes[n])
    ensures r.Ok? ==> |probes| == |before| + RangeLength(packetCount)
    ensures r.Err? ==> r.error.StructError? && TooShort(arrivals, |probes|)
  {
    probes, packetId, found, r := before, idBefore, false, Ok(());
    var attempt := 0;
    while attempt < packetCount
      invariant 0 <= attempt <= RangeLength(packetCount)
      invariant |probes| == |before| + attempt && r == Ok(())
      invariant Recorded(probes, arrivals) && packetId == LastId(probes)
      invariant forall n :: 0 <= n < |before| ==> probes[n] == before[n]
      invariant forall n :: |before| <= n < |probes| ==> probes[n].ttl == ttl
      invariant found <==> exists n :: |before| <= n < |probes| && EchoReply(probes[n])
      decreases packetCount - attempt
    {
      var probe, result := ProbeOnce(ttl, arrivals, |probes|, packetId);
      if result.Err? {
        r := result;
        break;
      }
      RecordedSnoc(probes, arrivals, probe);
      probes := probes + [probe];
      packetId := IdAfter(probe);
      if EchoReply(probe) {
        found := true;
      }
      attempt := attempt + 1;
    }
    NextTtl(before, probes, ttl);
  }

  /** The probes go out TTL by TTL: their TTLs never decrease. */
  predicate TtlsAscending(probes: seq<Probe>) {
    forall n, m :: 0 <= n < m < |probes| ==> probes[n].ttl <= probes[m].ttl
  }

  /** The probes of the next TTL extend those of the earlier TTLs, none of
      which brought an echo reply: the TTLs still ascend and stay within
      1 to `ttl`, and only the new TTL can have an echo reply. */
  lemma NextTtl(before: seq<Probe>, probes: seq<Probe>, ttl: int)
    requires forall n :: 0 <= n < |before| ==> 1 <= before[n].ttl < ttl
    requires TtlsAscending(before)
    requires forall n :: 0 <= n < |before| ==> !EchoReply(before[n])
    requires |before| <= |probes| && forall n :: 0 <= n < |before| ==> probes[n] == before[n]
    requires 1 <= ttl && forall n :: |before| <= n < |probes| ==> probes[n].ttl == ttl
    ensures forall n :: 0 <= n < |probes| ==> 1 <= probes[n].ttl <= ttl
    ensures TtlsAscending(probes)
    ensures forall n :: 0 <= n < |probes| && EchoReply(probes[n]) ==> probes[n].ttl == ttl
    ensures (exists n :: 0 <= n < |probes| && EchoReply(probes[n]))
        <==> exists n :: |before| <= n < |probes| && EchoReply(probes[n])
  {
  }

  /** Every echo reply answered a probe of the last TTL sent. */
  predicate EchoInLastTtl(probes: seq<Probe>) {
    forall n :: 0 <= n < |probes| && EchoReply(probes[n]) ==> probes[n].ttl == probes[|probes| - 1].ttl
  }

  lemma EchoesAtTop(probes: seq<Probe>, top: int)
    requires TtlsAscending(probes) && forall n :: 0 <= n < |probes| ==> probes[n].ttl <= top
    requires forall n :: 0 <= n < |probes| && EchoReply(probes[n]) ==> probes[n].ttl == top
    ensures EchoInLastTtl(probes)
  {
  }

  /** `trace_route(destination, max_hops, timeout, packet_count)`: whether
      the name resolved, and the arrivals of successive `recvfrom` calls,
      are inputs; it returns the probes in order, the number of hop lines
      printed, and the `struct.error` a datagram shorter than 28 bytes
      raises. */
  method TraceRoute(resolved: bool, maxHops: int, packetCount: int, arrivals: seq<Arrival>)
    returns (probes: seq<Probe>, lines: nat, r: Result<()>)
    ensures !resolved ==> probes == [] && lines == 0 && r == Ok(())
    ensures lines <= if maxHops < 0 then 0 else maxHops
    ensures Recorded(probes, arrivals)
    ensures forall n :: 0 <= n < |probes| ==> 1 <= probes[n].ttl <= lines + 1
    ensures TtlsAscending(probes)
    ensures EchoInLastTtl(probes)
    ensures r.Ok? ==> |probes| == lines * RangeLength(packetCount)
    ensures r.Ok? ==> forall n :: 0 <= n < |probes| ==> probes[n].ttl <= lines
    ensures r.Ok? && resolved && lines < maxHops ==> exists n :: 0 <= n < |probes| && EchoReply(probes[n])
    ensures r.Err? ==> r.error.StructError? && TooShort(arrivals, |probes|)
  {
    probes, lines, r := [], 0, Ok(());
    if !resolved {
      return;
    }
    var perHop := RangeLength(packetCount);
    var packetId := 0;
    var destFound := false;
    var ttl := 1;
    while ttl <= maxHops
      invariant 1 <= ttl && lines == ttl - 1
      invariant lines <= if maxHops < 0 then 0 else maxHops
      invariant |probes| == lines * perHop
      invariant Recorded(probes, arrivals) && packetId == LastId(probes)
      invariant forall n :: 0 <= n < |probes| ==> 1 <= probes[n].ttl <= lines
      invariant TtlsAscending(probes)
      invariant forall n :: 0 <= n < |probes| && EchoReply(probes[n]) ==> probes[n].ttl == lines
      invariant destFound <==> exists n :: 0 <= n < |probes| && EchoReply(probes[n])
      invariant r.Ok?
    {
      if destFound {
        break;
      }
      ghost var before := probes;
      var found;
      assert forall n :: 0 <= n < |probes| ==> !EchoReply(probes[n]);
      probes, packetId, found, r := ProbeTtl(ttl, packetCount, arrivals, probes, packetId);
      destFound := found;
      if r.Err? {
        EchoesAtTop(probes, ttl);
        return;
      }
      assert |probes| == (lines + 1) * perHop by {
        assert |probes| == lines * perHop + perHop;
      }
      lines := lines + 1;
      ttl := ttl + 1;
    }
    EchoesAtTop(probes, lines);
  }
}
