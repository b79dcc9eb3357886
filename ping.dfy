/** `lab10/ping.py`: the checksum of `Ping`, the echo request it sends and
    the way `receive_ping` answers. The checksum is the RFC 1071 one of
    `lab11/traceroute.py`, except that `max_count` is computed with true
    division and so equals the length: an odd-length input reads one byte
    past its end. `select` and `recvfrom` become a sequence of events, the
    time spent in `select` an integer duration, and `time.time()` the
    eight packed bytes of the stamp; the floating-point delay is left
    out. */
module Ping {
  import opened Bytes
  import opened Exceptions
  import opened Text
  import Traceroute

  /** `self.id`. */
  const PingId := 0xABCD

  /** `(192 - struct.calcsize("d")) * "Q"`: the padding after the stamp. */
  const Padding: seq<byte> := seq(184, _ => 0x51)

  const DestinationUnreachableType := 3

  // ----- checksum -----

  /** `Ping.checksum(source_string)`. `max_count` is `len / 2 * 2` in
      floating point, the length itself, so no byte is ever left over and
      an odd length fails on `source_string[count + 1]`. */
  method Checksum(s: seq<byte>) returns (r: Result<int>)
    ensures |s| % 2 == 0 ==> r == Ok(Traceroute.Checksum(s))
    ensures |s| % 2 == 1 ==> r.Err? && r.error.IndexError?
  {
    var sm := 0;
    var maxCount := |s|;
    var count := 0;
    ghost var n := 0;
    while count < maxCount
      invariant count == 2 * n <= maxCount && sm == Traceroute.RunningSum(s, n)
    {
      if count + 1 >= |s| {
        return Err(IndexError("index out of range"));
      }
      var val := s[count + 1] as int * 256 + s[count];
      sm := sm + val;
      sm := sm % TwoTo32;
      count := count + 2;
      n := n + 1;
    }
    // `max_count < len(source_string)` never holds: no odd byte is added.
    assert n == |s| / 2 && Traceroute.Tail(s) == 0;
    Traceroute.SmallMod(sm);
    ghost var total := sm;
    sm := sm / 0x1_0000 + sm % 0x1_0000;
    sm := sm + sm / 0x1_0000;
    assert sm == Traceroute.Fold(total);
    var answer := (-sm - 1) % 0x1_0000;
    assert answer == Traceroute.Complement(Traceroute.Fold(total));
    answer := answer / 0x100 + (answer % 0x100) * 0x100;
    return Ok(answer);
  }

  // ----- create_packet -----

  /** `create_packet(icmp_seq)`, with `struct.pack("d", time.time())`
      given as `stamp`: a header with a zero checksum, the stamp and the
      padding are summed, and the header is packed again with the checksum
      through `htons`. An `icmp_seq` outside the range of `h` makes
      `struct.pack` fail. */
  method CreatePacket(sequence: int, stamp: seq<byte>) returns (r: Result<seq<byte>>)
    requires |stamp| == 8
    ensures r.Err? <==> !(-0x8000 <= sequence < 0x8000)
    ensures r.Err? ==> r.error.StructError?
    ensures r.Ok? ==> r.value == Traceroute.CreateCheckedPacket(PingId, sequence, stamp + Padding)
    ensures r.Ok? ==> |r.value| == 200 && r.value[8..16] == stamp && Traceroute.Checksum(r.value) == 0
  {
    if !(-0x8000 <= sequence < 0x8000) {
      return Err(StructError("short format requires -32768 <= number <= 32767"));
    }
    var header := Traceroute.PackEcho(0, PingId, sequence);
    var data := stamp + Padding;
    var checksum := Checksum(header + data);
    assert |header + data| == 200;
    header := Traceroute.PackEcho(Traceroute.Htons(checksum.value), PingId, sequence);
    var packet := header + data;
    Traceroute.CheckedPacketVerifies(PingId, sequence, data);
    assert packet[8..16] == data[..8] == stamp;
    return Ok(packet);
  }

  // ----- receive_ping -----

  /** What `select` reports: nothing ready before the time left ran out,
      or a datagram ready after `waited` units of time. */
  datatype Select = NotReady | Ready(waited: nat, packet: seq<byte>)

  /** What `receive_ping` returns: `None`, the delay (represented by the
      sent time stamp it is computed from), or a message. */
  datatype Outcome = TimedOut | Delay(stamp: seq<byte>) | Message(text: string)

  /** `f"Error type {tp} code {code}"`. */
  function ErrorMessage(tp: int, code: int): string {
    "Error type " + Decimal(tp) + " code " + Decimal(code)
  }

  /** The index of the first space, or the length if there is none. */
  function SpaceIndex(s: string): (k: nat)
    ensures k <= |s|
  {
    if s == [] || s[0] == ' ' then 0 else 1 + SpaceIndex(s[1..])
  }

  lemma {:induction false} SpaceIndexAfter(a: string, b: string)
    requires forall i :: 0 <= i < |a| ==> a[i] != ' '
    requires |b| > 0 && b[0] == ' '
    ensures SpaceIndex(a + b) == |a|
    decreases |a|
  {
    if a != [] {
      assert (a + b)[1..] == a[1..] + b;
      SpaceIndexAfter(a[1..], b);
    }
  }

  /** The type and the code read back from an error message. */
  function ParseErrorMessage(message: string): (int, int) {
    var rest := if |message| >= 11 then message[11..] else "";
    var k := SpaceIndex(rest);
    var codeText := if k + 6 <= |rest| then rest[k + 6..] else "";
    (ParseDecimal(rest[..k]), ParseDecimal(codeText))
  }

  /** An error message names its type and code unambiguously. */
  lemma ErrorMessageRoundTrip(tp: int, code: int)
    ensures ParseErrorMessage(ErrorMessage(tp, code)) == (tp, code)
  {
    var message := ErrorMessage(tp, code);
    var tail := " code " + Decimal(code);
    var rest := Decimal(tp) + tail;
    assert message == "Error type " + rest;
    assert message[11..] == rest;
    SpaceIndexAfter(Decimal(tp), tail);
    var k := |Decimal(tp)|;
    assert rest[..k] == Decimal(tp);
    assert rest[k + 6..] == Decimal(code);
    DecimalRoundTrip(tp);
    DecimalRoundTrip(code);
  }

  /** The answer to a reply carrying `PingId`, by its type and code. An
      echo reply too short to hold the stamp makes `struct.unpack("d", …)`
      fail. Every such reply ends the wait. */
  function Classify(header: Traceroute.IcmpHeader, packet: seq<byte>): (r: Result<Outcome>)
    requires |packet| >= 28
    ensures r.Err? <==> header.icmpType == 0 && header.code == 0 && |packet| < 36
    ensures r.Ok? ==> r.value != TimedOut
  {
    if header.icmpType == Traceroute.EchoReplyType && header.code == 0 then
      if |packet| < 36 then Err(StructError("unpack requires a buffer of 8 bytes"))
      else Ok(Delay(packet[28..36]))
    else if header.icmpType == DestinationUnreachableType && header.code == 0 then
      Ok(Message("Destination network unreachable"))
    else if header.icmpType == DestinationUnreachableType && header.code == 1 then
      Ok(Message("Destination host unreachable"))
    else
      Ok(Message(ErrorMessage(header.icmpType, header.code)))
  }

  /** The four answers are told apart: a delay only for an echo reply, the
      two unreachable messages only for codes 0 and 1 of type 3, and any
      other reply's type and code can be read back from its message. */
  lemma ClassifyDistinguishes(header: Traceroute.IcmpHeader, packet: seq<byte>)
    requires |packet| >= 28
    ensures Classify(header, packet).Ok? && Classify(header, packet).value.Delay?
            <==> header.icmpType == 0 && header.code == 0 && |packet| >= 36
    ensures Classify(header, packet) == Ok(Message("Destination network unreachable"))
            <==> header.icmpType == 3 && header.code == 0
    ensures Classify(header, packet) == Ok(Message("Destination host unreachable"))
            <==> header.icmpType == 3 && header.code == 1
    ensures Classify(header, packet).Ok? && Classify(header, packet).value.Message?
            && !(header.icmpType == 3 && 0 <= header.code <= 1)
            ==> ParseErrorMessage(Classify(header, packet).value.text) == (header.icmpType, header.code)
  {
    var m := ErrorMessage(header.icmpType, header.code);
    assert m[0] == 'E';
    ErrorMessageRoundTrip(header.icmpType, header.code);
  }

  /** The reply a ready datagram carries, if it is long enough to hold
      the IP header and the ICMP header. */
  predicate Long(e: Select) {
    e.Ready? && |e.packet| >= 28
  }

  /** A ready datagram whose ICMP header carries `PingId`. */
  predicate Matches(e: Select) {
    Long(e) && Traceroute.Unpack(e.packet[20..28]).id == PingId
  }

  /** `receive_ping`, one event at a time: `select` timing out ends it
      with `None`; a datagram too short for the header fails; one with
      `PingId` is classified; any other one costs the time spent waiting
      for it, and the wait ends with `None` once no time is left. */
  function Receive(events: seq<Select>, timeLeft: int): (r: Result<Outcome>)
    ensures r.Err? ==> r.error.StructError?
    ensures r.Ok? && r.value != TimedOut ==> exists k :: 0 <= k < |events| && Matches(events[k])
    decreases |events|
  {
    if events == [] || events[0].NotReady? then Ok(TimedOut)
    else if |events[0].packet| < 28 then Err(StructError("unpack requires a buffer of 8 bytes"))
    else if Matches(events[0]) then Classify(Traceroute.Unpack(events[0].packet[20..28]), events[0].packet)
    else if timeLeft - events[0].waited <= 0 then Ok(TimedOut)
    else
      var r := Receive(events[1..], timeLeft - events[0].waited);
      assert forall k :: 0 <= k < |events| - 1 ==> events[1..][k] == events[k + 1];
      r
  }

  /** The time spent waiting for the first `k` datagrams. */
  function Waited(events: seq<Select>, k: nat): nat
    requires k <= |events|
  {
    if k == 0 then 0 else Waited(events, k - 1) + (if events[k - 1].Ready? then events[k - 1].waited else 0)
  }

  /** Replies with other ids are skipped: the first reply with `PingId`
      is the answer if it came before the time ran out. */
  lemma {:induction false} FirstMatchAnswers(events: seq<Select>, timeLeft: int, k: nat)
    requires k < |events| && forall j :: 0 <= j < k ==> Long(events[j]) && !Matches(events[j])
    requires Matches(events[k]) && Waited(events, k) < timeLeft
    ensures Receive(events, timeLeft) == Classify(Traceroute.Unpack(events[k].packet[20..28]), events[k].packet)
    decreases k
  {
    if k > 0 {
      var rest, left := events[1..], timeLeft - events[0].waited;
      WaitedShift(events, k);
      assert left > 0 && Receive(events, timeLeft) == Receive(rest, left);
      assert rest[k - 1] == events[k];
      FirstMatchAnswers(rest, left, k - 1);
    }
  }

  /** If the replies with other ids used up the time, the answer is
      `None`, whatever comes after them. */
  lemma {:induction false} ForeignRepliesUseUpTime(events: seq<Select>, timeLeft: int, k: nat)
    requires k <= |events| && forall j :: 0 <= j < k ==> Long(events[j]) && !Matches(events[j])
    requires 0 < k && timeLeft <= Waited(events, k)
    ensures Receive(events, timeLeft) == Ok(TimedOut)
    decreases k
  {
    var left := timeLeft - events[0].waited;
    if left > 0 {
      WaitedShift(events, k);
      ForeignRepliesUseUpTime(events[1..], left, k - 1);
    }
  }

  lemma {:induction false} WaitedShift(events: seq<Select>, k: nat)
    requires 0 < k <= |events| && events[0].Ready?
    ensures Waited(events, k) == events[0].waited + Waited(events[1..], k - 1)
    decreases k
  {
    if k > 1 {
      WaitedShift(events, k - 1);
    }
  }

  lemma {:induction false} WaitedMonotone(events: seq<Select>, j: nat, k: nat)
    requires j <= k <= |events|
    ensures Waited(events, j) <= Waited(events, k)
    decreases k
  {
    if j < k {
      WaitedMonotone(events, j, k - 1);
    }
  }

  /** A stream of replies that all carry other ids never gets an answer
      but `None`. */
  lemma {:induction false} ForeignRepliesTimeOut(events: seq<Select>, timeLeft: int)
    requires forall j :: 0 <= j < |events| ==> Long(events[j]) && !Matches(events[j])
    ensures Receive(events, timeLeft) == Ok(TimedOut)
    decreases |events|
  {
    if events != [] {
      ForeignRepliesTimeOut(events[1..], timeLeft - events[0].waited);
    }
  }

  /** `receive_ping(sock)` with `time_left` starting at `timeout`. */
  method ReceivePing(events: seq<Select>, timeout: int) returns (r: Result<Outcome>)
    ensures r == Receive(events, timeout)
  {
    var timeLeft := timeout;
    var i := 0;
    while true
      invariant i <= |events| && Receive(events[i..], timeLeft) == Receive(events, timeout)
      decreases |events| - i
    {
      if i == |events| || events[i].NotReady? {
        return Ok(TimedOut);
      }
      var packet := events[i].packet;
      if |packet| < 28 {
        return Err(StructError("unpack requires a buffer of 8 bytes"));
      }
      var header := Traceroute.Unpack(packet[20..28]);
      if header.id == PingId {
        return Classify(header, packet);
      }
      assert events[i..][1..] == events[i + 1..];
      timeLeft := timeLeft - events[i].waited;
      if timeLeft <= 0 {
        return Ok(TimedOut);
      }
      i := i + 1;
    }
  }
}
