/** The alternating-bit (stop-and-wait) exchange of the reliable-UDP
    protocol, as functions over an explicit state: the sequence bit and the
    datagram socket, whose receive events and losses are given up front. */
module RudpArq {
  import opened Bytes
  import opened Exceptions
  import opened RudpFrame

  /** Protocol constants of reliable_udp.py. */
  const Repeats: nat := 200

  /** A UDP peer: host name and port. */
  datatype Address = Address(host: string, port: int)

  /** The environment the protocol cannot see into: the salted string hash
      behind the checksum and the DNS lookup behind `gethostbyname`. */
  datatype Env = Env(hash: Hash, resolve: string -> string)

  /** One outcome of `recvfrom`: a timeout, or a datagram and its sender. */
  datatype Event = Timeout | Frame(bytes: seq<byte>, sender: Address)

  /** One datagram handed to `sendto`. */
  datatype Datagram = Datagram(bytes: seq<byte>, to: Address)

  /** The socket: events still to be received, the loss oracle (one flag per
      send; `true` drops the datagram, an exhausted oracle drops nothing)
      and everything transmitted so far. An exhausted inbox times out. */
  datatype Net = Net(inbox: seq<Event>, losses: seq<bool>, wire: seq<Datagram>)

  /** The engine: `packet_id` and its socket. */
  datatype State = State(packetId: int, net: Net)

  /** The result of `receive_packet`: nothing (timeout), a decoded packet with
      its sender, or the `ValueError` of a frame that did not decode. */
  datatype Received = NoReply | Got(packet: Packet, sender: Address) | Malformed(error: Failure)

  /** A call's result together with the state it leaves. */
  datatype Step<T> = Step(result: Result<T>, state: State)

  predicate ValidId(id: int) {
    id == 0 || id == 1
  }

  /** `addresses_eq`: despite its name, true when the two addresses resolve
      to different hosts or have different ports. */
  predicate AddressesEq(env: Env, a1: Address, a2: Address)
    ensures a1 == a2 ==> !AddressesEq(env, a1, a2)
    ensures a1.port != a2.port ==> AddressesEq(env, a1, a2)
  {
    env.resolve(a1.host) != env.resolve(a2.host) || a1.port != a2.port
  }

  /** `packet_id ^= 1` on a Python integer. */
  function Flip(id: int): (r: int)
    ensures ValidId(id) ==> ValidId(r) && r != id
    ensures r == id + 1 || r == id - 1
  {
    if id % 2 == 0 then id + 1 else id - 1
  }

  /** `check_packet` against the bit `packetId`. */
  predicate CheckPacket(env: Env, packetId: int, p: Packet)
    ensures CheckPacket(env, packetId, p) && ValidId(packetId) && |p.data| <= MaxDataSize ==> Constructed(env.hash, p)
    ensures Constructed(env.hash, p) && p.header.identifier == packetId ==> CheckPacket(env, packetId, p)
  {
    && p.header.identifier == packetId
    && Checksum(env.hash, p.data) == p.header.checksum
    && ValidTag(p.header.tag)
  }

  /** On any packet the constructor built (every decoded packet), only the
      identifier comparison can fail. */
  lemma CheckPacketOfConstructed(env: Env, packetId: int, p: Packet)
    requires Constructed(env.hash, p)
    ensures CheckPacket(env, packetId, p) <==> p.header.identifier == packetId
  {
  }

  predicate Sendable(p: Packet) {
    Packable(p.header) && |p.data| <= MaxDataSize
  }

  /** `Packet(identifier, tag)` with an empty payload, for the ACK and ERROR
      replies the engine builds itself. */
  function Control(env: Env, identifier: int, tag: int): (p: Packet)
    requires ValidId(identifier) && ValidTag(tag)
    ensures Constructed(env.hash, p) && Sendable(p)
    ensures p.header.identifier == identifier && p.header.tag == tag && p.data == []
  {
    NewPacket(env.hash, identifier, tag, []).value
  }

  /** `send_packet`: consumes one loss flag; a dropped packet leaves the wire
      unchanged, otherwise its encoding is transmitted. */
  function SendPacket(net: Net, p: Packet, address: Address): (r: Net)
    requires Sendable(p)
    ensures r.inbox == net.inbox
    ensures r.losses == if net.losses == [] then [] else net.losses[1..]
    ensures r.wire == net.wire || r.wire == net.wire + [Datagram(ToBytes(p), address)]
    ensures (net.losses == [] || !net.losses[0]) <==> r.wire == net.wire + [Datagram(ToBytes(p), address)]
  {
    var lost := net.losses != [] && net.losses[0];
    Net(net.inbox,
        if net.losses == [] then [] else net.losses[1..],
        if lost then net.wire else net.wire + [Datagram(ToBytes(p), address)])
  }

  /** `recvfrom(Packet.max_size())` keeps at most the first 64 bytes of a
      longer datagram. */
  function Truncate(b: seq<byte>): (r: seq<byte>)
    ensures |r| <= MaxSize && r <= b
    ensures |b| <= MaxSize ==> r == b
  {
    if |b| <= MaxSize then b else b[..MaxSize]
  }

  /** `receive_packet`: one event; a frame is decoded with `from_bytes`,
      whose `ValueError` is not caught. */
  function Receive(env: Env, net: Net): (r: (Received, Net))
    ensures r.1.losses == net.losses && r.1.wire == net.wire
    ensures net.inbox == [] ==> r == (NoReply, net)
    ensures net.inbox != [] ==> r.1.inbox == net.inbox[1..]
    ensures r.0.Got? ==> Constructed(env.hash, r.0.packet)
    ensures r.0.Malformed? ==> r.0.error.ValueError?
  {
    if net.inbox == [] then (NoReply, net)
    else
      var rest := Net(net.inbox[1..], net.losses, net.wire);
      match net.inbox[0]
      case Timeout => (NoReply, rest)
      case Frame(bytes, sender) =>
        match FromBytes(env.hash, Truncate(bytes))
        case Ok(p) => (Got(p, sender), rest)
        case Err(e) => (Malformed(e), rest)
  }

  /** The encoding of the ERROR packet `safe_send_packet` answers with. */
  function ErrorFrame(env: Env, identifier: int): seq<byte>
    requires ValidId(identifier)
  {
    ToBytes(Control(env, identifier, ERROR))
  }

  function AckFrame(env: Env, identifier: int): seq<byte>
    requires ValidId(identifier)
  {
    ToBytes(Control(env, identifier, ACK))
  }

  function Tail<T>(s: seq<T>): seq<T> {
    if s == [] then [] else s[1..]
  }

  /** `b` ends with `a`. */
  predicate Suffix<T(==)>(a: seq<T>, b: seq<T>) {
    |a| <= |b| && a == b[|b| - |a|..]
  }

  lemma SuffixOfTail<T>(a: seq<T>, b: seq<T>)
    requires Suffix(a, Tail(b))
    ensures Suffix(a, b) && (b != [] ==> |b| - |a| == |Tail(b)| - |a| + 1)
  {
    if b != [] {
      assert b[1..][|b[1..]| - |a|..] == b[|b| - |a|..];
    }
  }

  /** An event `safe_send_packet` answers by going round again: a timeout,
      or a reply from its peer that decodes and carries the other bit. */
  predicate SendSkips(env: Env, id: int, address: Address, e: Event) {
    || e.Timeout?
    || (var d := FromBytes(env.hash, Truncate(e.bytes));
        d.Ok? && !AddressesEq(env, e.sender, address) && d.value.header.identifier != id)
  }

  /** The reply that completes a send: an ACK of the engine's bit from the
      peer. */
  predicate Acknowledges(env: Env, id: int, address: Address, e: Event) {
    && e.Frame?
    && var d := FromBytes(env.hash, Truncate(e.bytes));
       && d.Ok? && !AddressesEq(env, e.sender, address)
       && d.value.header.identifier == id && d.value.header.tag == ACK
  }

  /** An event `safe_receive_packet` answers by going round again: a
      timeout, or a frame that decodes and carries the other bit. */
  predicate ReceiveSkips(env: Env, id: int, e: Event) {
    || e.Timeout?
    || (var d := FromBytes(env.hash, Truncate(e.bytes)); d.Ok? && d.value.header.identifier != id)
  }

  /** A frame that decodes and carries the bit the receiver expects. */
  predicate Expected(env: Env, id: int, e: Event) {
    && e.Frame?
    && var d := FromBytes(env.hash, Truncate(e.bytes)); d.Ok? && d.value.header.identifier == id
  }

  /** One pass of a retry loop: go round again from `next`, or leave the
      loop with `step`. */
  datatype Round<T> = Retry(next: State) | Finish(step: Step<T>) {
    function After(): State {
      if Retry? then next else step.state
    }
  }

  /** One iteration of the loop of `safe_send_packet`: transmit, wait for a
      reply, judge it. */
  function SendRound(env: Env, st: State, packet: Packet, address: Address): (r: Round<()>)
    requires Constructed(env.hash, packet)
    ensures r.After().net.inbox == Tail(st.net.inbox)
    ensures r.After().packetId == if r.Finish? && r.step.result.Ok? then Flip(st.packetId) else st.packetId
    ensures r.Retry? <==> st.net.inbox == [] || SendSkips(env, st.packetId, address, st.net.inbox[0])
    ensures r.Finish? && r.step.result.Ok? <==>
              st.net.inbox != [] && Acknowledges(env, st.packetId, address, st.net.inbox[0])
  {
    var (received, net) := Receive(env, SendPacket(st.net, packet, address));
    var st' := State(st.packetId, net);
    match received
    case NoReply => Retry(st')
    case Malformed(e) => Finish(Step(Err(e), st'))
    case Got(p, sender) =>
      if AddressesEq(env, sender, address) then
        Finish(Step(Err(RuntimeError("Multiple connections are not implemented")), st'))
      else if CheckPacket(env, st.packetId, p) && p.header.tag == ACK then
        Finish(Step(Ok(()), State(Flip(st.packetId), net)))
      else if p.header.identifier != st.packetId then
        Retry(st')
      else if p.header.tag == ERROR then
        Finish(Step(Err(RuntimeError("Wrong protocol")), st'))
      else
        var error := Control(env, packet.header.identifier, ERROR);
        Finish(Step(Err(RuntimeError("Wrong protocol")), State(st.packetId, SendPacket(net, error, address))))
  }

  /** What one pass of `safe_send_packet` transmits: its packet, unless
      the loss oracle drops it, and at the end of a "Wrong protocol" exit
      one ERROR frame. */
  lemma SendRoundWire(env: Env, st: State, packet: Packet, address: Address)
    requires Constructed(env.hash, packet)
    ensures var r := SendRound(env, st, packet, address);
            var w := r.After().net.wire;
            && st.net.wire <= w && |w| <= |st.net.wire| + (if r.Retry? then 1 else 2)
            && forall i :: |st.net.wire| <= i < |w| ==>
                 || w[i] == Datagram(ToBytes(packet), address)
                 || (&& i == |w| - 1 && r.Finish?
                     && w[i] == Datagram(ErrorFrame(env, packet.header.identifier), address)
                     && r.step.result == Err(RuntimeError("Wrong protocol")))
  {
  }

  /** `safe_send_packet(packet, address, n)` from state `st`: at most `n`
      rounds, then `ConnectionError`. */
  function SafeSend(env: Env, st: State, packet: Packet, address: Address, n: nat): (r: Step<()>)
    requires Constructed(env.hash, packet)
    ensures ValidId(st.packetId) ==> ValidId(r.state.packetId)
    decreases n
  {
    if n == 0 then Step(Err(ConnectionError("The address is not replying")), st)
    else
      match SendRound(env, st, packet, address)
      case Retry(next) => SafeSend(env, next, packet, address, n - 1)
      case Finish(step) => step
  }

  /** One iteration of the loop of `safe_receive_packet`. */
  function ReceiveRound(env: Env, st: State): (r: Round<(Packet, Address)>)
    requires ValidId(st.packetId)
    ensures r.After().net.inbox == Tail(st.net.inbox)
    ensures r.After().packetId == if r.Finish? && r.step.result.Ok? then Flip(st.packetId) else st.packetId
    ensures r.Finish? && r.step.result.Err? ==> r.step.result.error.ValueError?
    ensures r.Retry? <==> st.net.inbox == [] || ReceiveSkips(env, st.packetId, st.net.inbox[0])
    ensures r.Finish? && r.step.result.Ok? <==> st.net.inbox != [] && Expected(env, st.packetId, st.net.inbox[0])
    ensures r.Finish? && r.step.result.Ok? ==>
              && st.net.inbox != [] && st.net.inbox[0].Frame?
              && r.step.result.value.1 == st.net.inbox[0].sender
              && FromBytes(env.hash, Truncate(st.net.inbox[0].bytes)) == Ok(r.step.result.value.0)
              && r.step.result.value.0.header.identifier == st.packetId
  {
    var (received, net) := Receive(env, st.net);
    match received
    case NoReply => Retry(State(st.packetId, net))
    case Malformed(e) => Finish(Step(Err(e), State(st.packetId, net)))
    case Got(p, sender) =>
      if CheckPacket(env, st.packetId, p) then
        var ack := Control(env, p.header.identifier, ACK);
        Finish(Step(Ok((p, sender)), State(Flip(st.packetId), SendPacket(net, ack, sender))))
      else if p.header.identifier != st.packetId then
        var ack := Control(env, p.header.identifier, ACK);
        Retry(State(st.packetId, SendPacket(net, ack, sender)))
      else
        // The "Wrong protocol" branch: a decoded packet carries the
        // checksum of its own payload and a valid tag, so it fails
        // `check_packet` only by its identifier and this is never reached.
        assert false;
        Finish(Step(Err(RuntimeError("Wrong protocol")), State(st.packetId, net)))
  }

  /** What one pass of `safe_receive_packet` transmits: at most one ACK,
      to the sender of the frame it read and carrying that frame's bit,
      which is the other bit when the loop goes round again. */
  lemma ReceiveRoundWire(env: Env, st: State)
    requires ValidId(st.packetId)
    ensures var r := ReceiveRound(env, st);
            var w := r.After().net.wire;
            && st.net.wire <= w && |w| <= |st.net.wire| + 1
            && forall i :: |st.net.wire| <= i < |w| ==>
                 && st.net.inbox != [] && st.net.inbox[0].Frame?
                 && w[i] == Datagram(AckFrame(env, if r.Retry? then Flip(st.packetId) else st.packetId),
                                     st.net.inbox[0].sender)
  {
  }

  /** `safe_receive_packet(n)` from state `st`: at most `n` receive attempts,
      then `ConnectionError`. */
  function SafeReceive(env: Env, st: State, n: nat): (r: Step<(Packet, Address)>)
    requires ValidId(st.packetId)
    ensures ValidId(r.state.packetId)
    ensures r.result.Ok? ==> |r.state.net.inbox| < |st.net.inbox|
    decreases n
  {
    if n == 0 then Step(Err(ConnectionError("Cannot receive packet")), st)
    else
      match ReceiveRound(env, st)
      case Retry(next) => SafeReceive(env, next, n - 1)
      case Finish(step) => step
  }

  // ----- Properties of the exchange -----

  /** The bit flips exactly once when a send succeeds and never on a retry
      or a failure. */
  lemma {:induction false} SafeSendFlipsOnce(env: Env, st: State, packet: Packet, address: Address, n: nat)
    requires Constructed(env.hash, packet)
    ensures var r := SafeSend(env, st, packet, address, n);
            r.state.packetId == if r.result.Ok? then Flip(st.packetId) else st.packetId
    decreases n
  {
    if n > 0 {
      var round := SendRound(env, st, packet, address);
      if round.Retry? {
        SafeSendFlipsOnce(env, round.next, packet, address, n - 1);
      }
    }
  }

  /** A send reads one event per round and so at most `n` events, from the
      front of the inbox; with nothing to read it gives up with
      `ConnectionError` after `n` rounds. */
  lemma {:induction false} SafeSendBounded(env: Env, st: State, packet: Packet, address: Address, n: nat)
    requires Constructed(env.hash, packet)
    ensures var r := SafeSend(env, st, packet, address, n);
            && Suffix(r.state.net.inbox, st.net.inbox)
            && |st.net.inbox| - |r.state.net.inbox| <= n
            && (st.net.inbox == [] ==> r.result == Err(ConnectionError("The address is not replying")))
    decreases n
  {
    if n > 0 {
      var round := SendRound(env, st, packet, address);
      if round.Retry? {
        SafeSendBounded(env, round.next, packet, address, n - 1);
        SuffixOfTail(SafeSend(env, round.next, packet, address, n - 1).state.net.inbox, st.net.inbox);
      } else {
        SuffixOfTail(round.step.state.net.inbox, st.net.inbox);
      }
    }
  }

  /** Stop-and-wait on the wire: a send transmits nothing but copies of its
      own packet to `address`, one per round, except for one ERROR frame at
      the very end when it gives up with "Wrong protocol". */
  lemma {:induction false} SafeSendWire(env: Env, st: State, packet: Packet, address: Address, n: nat)
    requires Constructed(env.hash, packet)
    ensures var r := SafeSend(env, st, packet, address, n);
            var w := r.state.net.wire;
            && st.net.wire <= w
            && |w| <= |st.net.wire| + n + 1
            && forall i :: |st.net.wire| <= i < |w| ==>
                 || w[i] == Datagram(ToBytes(packet), address)
                 || (&& i == |w| - 1
                     && w[i] == Datagram(ErrorFrame(env, packet.header.identifier), address)
                     && r.result == Err(RuntimeError("Wrong protocol")))
    decreases n
  {
    if n > 0 {
      var round := SendRound(env, st, packet, address);
      SendRoundWire(env, st, packet, address);
      if round.Retry? {
        SafeSendWire(env, round.next, packet, address, n - 1);
      }
    }
  }

  /** A send succeeds only on reading an ACK that carries the bit the engine
      held, from the peer it is talking to: the last event it read, and the
      first that it did not go round again on. */
  lemma {:induction false} SafeSendSuccessMeansAck(env: Env, st: State, packet: Packet, address: Address, n: nat)
    requires Constructed(env.hash, packet)
    requires SafeSend(env, st, packet, address, n).result.Ok?
    ensures var r := SafeSend(env, st, packet, address, n);
            var k := |st.net.inbox| - |r.state.net.inbox|;
            && 0 < k <= |st.net.inbox| && k <= n
            && Acknowledges(env, st.packetId, address, st.net.inbox[k - 1])
            && forall j :: 0 <= j < k - 1 ==> SendSkips(env, st.packetId, address, st.net.inbox[j])
    decreases n
  {
    var round := SendRound(env, st, packet, address);
    if round.Retry? {
      var next := round.next;
      SafeSendSuccessMeansAck(env, next, packet, address, n - 1);
      SafeSendBounded(env, next, packet, address, n - 1);
      var r' := SafeSend(env, next, packet, address, n - 1);
      var k' := |next.net.inbox| - |r'.state.net.inbox|;
      assert next.net.inbox[k' - 1] == st.net.inbox[k'];
      forall j | 0 <= j < k'
        ensures SendSkips(env, st.packetId, address, st.net.inbox[j])
      {
        if j > 0 {
          assert st.net.inbox[j] == next.net.inbox[j - 1];
        }
      }
    }
  }

  /** A skipped event costs one round: the send goes on from the state
      after that round, with the same bit and the rest of the inbox. */
  lemma SafeSendSkip(env: Env, st: State, packet: Packet, address: Address, n: nat)
    requires Constructed(env.hash, packet)
    requires n > 0 && (st.net.inbox == [] || SendSkips(env, st.packetId, address, st.net.inbox[0]))
    ensures var next := SendRound(env, st, packet, address).After();
            && SafeSend(env, st, packet, address, n) == SafeSend(env, next, packet, address, n - 1)
            && next.packetId == st.packetId && next.net.inbox == Tail(st.net.inbox)
  {
  }

  /** An ACK of the bit from the peer ends the send at once, successfully. */
  lemma SafeSendAck(env: Env, st: State, packet: Packet, address: Address, n: nat)
    requires Constructed(env.hash, packet)
    requires n > 0 && st.net.inbox != [] && Acknowledges(env, st.packetId, address, st.net.inbox[0])
    ensures var r := SafeSend(env, st, packet, address, n);
            r.result == Ok(()) && r.state.packetId == Flip(st.packetId) && r.state.net.inbox == st.net.inbox[1..]
  {
  }

  /** Conversely, a send succeeds on the first ACK of its bit from the peer
      that follows only events it goes round again on, if that ACK comes
      within its `n` rounds; the bit then flips. */
  lemma {:induction false} SafeSendAckAfterSkips(env: Env, st: State, packet: Packet, address: Address, n: nat, k: nat)
    requires Constructed(env.hash, packet)
    requires k < n && k < |st.net.inbox|
    requires forall j :: 0 <= j < k ==> SendSkips(env, st.packetId, address, st.net.inbox[j])
    requires Acknowledges(env, st.packetId, address, st.net.inbox[k])
    ensures var r := SafeSend(env, st, packet, address, n);
            && r.result == Ok(())
            && r.state.packetId == Flip(st.packetId)
            && r.state.net.inbox == st.net.inbox[k + 1..]
    decreases k
  {
    var round := SendRound(env, st, packet, address);
    if k > 0 {
      assert round.Retry?;
      var next := round.next;
      assert SafeSend(env, st, packet, address, n) == SafeSend(env, next, packet, address, n - 1);
      assert next.net.inbox == st.net.inbox[1..];
      forall j | 0 <= j < k - 1
        ensures SendSkips(env, st.packetId, address, next.net.inbox[j])
      {
        assert next.net.inbox[j] == st.net.inbox[j + 1];
      }
      SafeSendAckAfterSkips(env, next, packet, address, n - 1, k - 1);
    } else {
      SafeSendAck(env, st, packet, address, n);
    }
  }

  /** A send whose `n` rounds read only events it goes round again on
      (timeouts and replies with the other bit; an exhausted inbox times
      out) gives up with `ConnectionError`, the bit unchanged. */
  lemma {:induction false} SafeSendGivesUp(env: Env, st: State, packet: Packet, address: Address, n: nat)
    requires Constructed(env.hash, packet)
    requires forall j :: 0 <= j < n && j < |st.net.inbox| ==> SendSkips(env, st.packetId, address, st.net.inbox[j])
    ensures var r := SafeSend(env, st, packet, address, n);
            r.result == Err(ConnectionError("The address is not replying")) && r.state.packetId == st.packetId
    decreases n
  {
    if n > 0 {
      SafeSendSkip(env, st, packet, address, n);
      var next := SendRound(env, st, packet, address).After();
      forall j | 0 <= j < n - 1 && j < |next.net.inbox|
        ensures SendSkips(env, st.packetId, address, next.net.inbox[j])
      {
        assert next.net.inbox[j] == st.net.inbox[j + 1];
      }
      SafeSendGivesUp(env, next, packet, address, n - 1);
    }
  }

  /** One pass of `safe_send_packet` by the reply it reads (lines 120-141):
      the packet goes out once; a skipped event goes round again, an ACK of
      the bit from the peer succeeds, a frame that does not decode raises
      its `ValueError`, a reply from another peer raises "Multiple
      connections", an ERROR of the bit raises "Wrong protocol" with nothing
      more sent, and any other tag of the bit sends one ERROR first. */
  lemma SafeSendFirstReply(env: Env, st: State, packet: Packet, address: Address, n: nat)
    requires Constructed(env.hash, packet)
    requires n > 0 && st.net.inbox != []
    ensures var sent := SendPacket(st.net, packet, address);
            var rest := Net(st.net.inbox[1..], sent.losses, sent.wire);
            var e := st.net.inbox[0];
            var r := SafeSend(env, st, packet, address, n);
            && (SendSkips(env, st.packetId, address, e) ==>
                  r == SafeSend(env, State(st.packetId, rest), packet, address, n - 1))
            && (Acknowledges(env, st.packetId, address, e) ==>
                  r == Step(Ok(()), State(Flip(st.packetId), rest)))
            && (e.Frame? && FromBytes(env.hash, Truncate(e.bytes)).Err? ==>
                  r == Step(Err(FromBytes(env.hash, Truncate(e.bytes)).error), State(st.packetId, rest)))
            && (e.Frame? && FromBytes(env.hash, Truncate(e.bytes)).Ok? && AddressesEq(env, e.sender, address) ==>
                  r == Step(Err(RuntimeError("Multiple connections are not implemented")), State(st.packetId, rest)))
            && (e.Frame? && FromBytes(env.hash, Truncate(e.bytes)).Ok? && !AddressesEq(env, e.sender, address) ==>
                  var h := FromBytes(env.hash, Truncate(e.bytes)).value.header;
                  && (h.identifier == st.packetId && h.tag == ERROR ==>
                        r == Step(Err(RuntimeError("Wrong protocol")), State(st.packetId, rest)))
                  && (h.identifier == st.packetId && h.tag != ACK && h.tag != ERROR ==>
                        r == Step(Err(RuntimeError("Wrong protocol")),
                                  State(st.packetId, SendPacket(rest, Control(env, packet.header.identifier, ERROR), address)))))
  {
  }

  /** The bit flips exactly once when a receive delivers a packet and never
      otherwise. */
  lemma {:induction false} SafeReceiveFlipsOnce(env: Env, st: State, n: nat)
    requires ValidId(st.packetId)
    ensures var r := SafeReceive(env, st, n);
            r.state.packetId == if r.result.Ok? then Flip(st.packetId) else st.packetId
    decreases n
  {
    if n > 0 {
      var round := ReceiveRound(env, st);
      if round.Retry? {
        SafeReceiveFlipsOnce(env, round.next, n - 1);
      }
    }
  }

  /** `safe_receive_packet` never reaches its "Wrong protocol" branch: a
      decoded packet fails `check_packet` only by its identifier. It fails
      only by exhaustion or on a frame that does not decode. */
  lemma {:induction false} SafeReceiveFailures(env: Env, st: State, n: nat)
    requires ValidId(st.packetId)
    ensures var r := SafeReceive(env, st, n);
            r.result.Err? ==> r.result.error.ConnectionError? || r.result.error.ValueError?
    decreases n
  {
    if n > 0 {
      var round := ReceiveRound(env, st);
      if round.Retry? {
        SafeReceiveFailures(env, round.next, n - 1);
      }
    }
  }

  /** A receive reads at most `n` events from the front of the inbox; the
      packet it delivers is the last one it read, decoded, and carries the
      bit the engine expected. */
  lemma {:induction false} SafeReceiveDelivers(env: Env, st: State, n: nat)
    requires ValidId(st.packetId)
    ensures var r := SafeReceive(env, st, n);
            var k := |st.net.inbox| - |r.state.net.inbox|;
            && Suffix(r.state.net.inbox, st.net.inbox)
            && k <= n
            && (st.net.inbox == [] ==> r.result == Err(ConnectionError("Cannot receive packet")))
            && (r.result.Ok? ==>
                  && 0 < k
                  && st.net.inbox[k - 1].Frame?
                  && r.result.value.1 == st.net.inbox[k - 1].sender
                  && FromBytes(env.hash, Truncate(st.net.inbox[k - 1].bytes)) == Ok(r.result.value.0)
                  && r.result.value.0.header.identifier == st.packetId)
  {
    SafeReceiveConsumes(env, st, n);
    SafeReceiveDeliversFrame(env, st, n);
  }

  /** The loop reads a suffix of the inbox away, at most one event per
      round, and an empty inbox gives `ConnectionError`. */
  lemma {:induction false} SafeReceiveConsumes(env: Env, st: State, n: nat)
    requires ValidId(st.packetId)
    ensures var r := SafeReceive(env, st, n);
            && Suffix(r.state.net.inbox, st.net.inbox)
            && |st.net.inbox| - |r.state.net.inbox| <= n
            && (st.net.inbox == [] ==> r.result == Err(ConnectionError("Cannot receive packet")))
    decreases n
  {
    if n > 0 {
      var round := ReceiveRound(env, st);
      if round.Retry? {
        SafeReceiveConsumes(env, round.next, n - 1);
        SuffixOfTail(SafeReceive(env, round.next, n - 1).state.net.inbox, st.net.inbox);
      } else {
        SuffixOfTail(round.step.state.net.inbox, st.net.inbox);
      }
    }
  }

  /** A delivered packet is the decoding of the last frame read, with the
      expected bit, from that frame's sender. */
  lemma {:induction false} SafeReceiveDeliversFrame(env: Env, st: State, n: nat)
    requires ValidId(st.packetId)
    ensures var r := SafeReceive(env, st, n);
            var k := |st.net.inbox| - |r.state.net.inbox|;
            r.result.Ok? ==>
              && 0 < k
              && st.net.inbox[k - 1].Frame?
              && r.result.value.1 == st.net.inbox[k - 1].sender
              && FromBytes(env.hash, Truncate(st.net.inbox[k - 1].bytes)) == Ok(r.result.value.0)
              && r.result.value.0.header.identifier == st.packetId
    decreases n
  {
    if n > 0 {
      var round := ReceiveRound(env, st);
      if round.Retry? {
        var next := round.next;
        SafeReceiveDeliversFrame(env, next, n - 1);
        var r' := SafeReceive(env, next, n - 1);
        if r'.result.Ok? {
          var k' := |next.net.inbox| - |r'.state.net.inbox|;
          assert st.net.inbox != [] && next.net.inbox == st.net.inbox[1..];
          assert next.net.inbox[k' - 1] == st.net.inbox[k'];
        }
      } else if round.step.result.Ok? {
        assert st.net.inbox != [] && round.step.state.net.inbox == st.net.inbox[1..];
      }
    }
  }

  /** Every event a successful receive read before the packet it delivers
      was one the loop goes round again on: a timeout or a duplicate. */
  lemma {:induction false} SafeReceiveSkipsBefore(env: Env, st: State, n: nat)
    requires ValidId(st.packetId)
    requires SafeReceive(env, st, n).result.Ok?
    ensures var k := |st.net.inbox| - |SafeReceive(env, st, n).state.net.inbox|;
            forall j :: 0 <= j < k - 1 ==> ReceiveSkips(env, st.packetId, st.net.inbox[j])
    decreases n
  {
    var round := ReceiveRound(env, st);
    if round.Retry? {
      var next := round.next;
      SafeReceiveSkipsBefore(env, next, n - 1);
      SafeReceiveDelivers(env, next, n - 1);
      var k' := |next.net.inbox| - |SafeReceive(env, next, n - 1).state.net.inbox|;
      forall j | 0 <= j < k'
        ensures ReceiveSkips(env, st.packetId, st.net.inbox[j])
      {
        if j > 0 {
          assert st.net.inbox[j] == next.net.inbox[j - 1];
        }
      }
    }
  }

  /** `d` acknowledges the other bit than `id` to a peer from which one of
      the frames in `inbox` came. */
  predicate DuplicateAck(env: Env, id: int, inbox: seq<Event>, d: Datagram)
    requires ValidId(id)
  {
    exists j :: 0 <= j < |inbox| && inbox[j].Frame? && d == Datagram(AckFrame(env, Flip(id)), inbox[j].sender)
  }

  lemma DuplicateAckOfTail(env: Env, id: int, inbox: seq<Event>, d: Datagram)
    requires ValidId(id) && inbox != [] && DuplicateAck(env, id, inbox[1..], d)
    ensures DuplicateAck(env, id, inbox, d)
  {
    var j :| 0 <= j < |inbox[1..]| && inbox[1..][j].Frame? && d == Datagram(AckFrame(env, Flip(id)), inbox[1..][j].sender);
    assert inbox[j + 1] == inbox[1..][j];
  }

  /** A receive transmits only ACKs: of the other bit for each duplicate,
      to a peer whose frame it read, and of the expected bit, to the
      sender, for the packet it delivers. */
  lemma {:induction false} SafeReceiveWire(env: Env, st: State, n: nat)
    requires ValidId(st.packetId)
    ensures st.net.wire <= SafeReceive(env, st, n).state.net.wire
    ensures |SafeReceive(env, st, n).state.net.wire| <= |st.net.wire| + n
    ensures var r := SafeReceive(env, st, n);
            var w := r.state.net.wire;
            forall i :: |st.net.wire| <= i < |w| ==>
              || DuplicateAck(env, st.packetId, st.net.inbox, w[i])
              || (r.result.Ok? && w[i] == Datagram(AckFrame(env, st.packetId), r.result.value.1))
    decreases n
  {
    if n > 0 {
      var round := ReceiveRound(env, st);
      ReceiveRoundWire(env, st);
      if round.Retry? {
        var next := round.next;
        SafeReceiveWire(env, next, n - 1);
        var r := SafeReceive(env, st, n);
        var w := r.state.net.wire;
        forall i | |st.net.wire| <= i < |w|
          ensures || DuplicateAck(env, st.packetId, st.net.inbox, w[i])
                  || (r.result.Ok? && w[i] == Datagram(AckFrame(env, st.packetId), r.result.value.1))
        {
          if i < |next.net.wire| {
            assert w[i] == next.net.wire[i];
            assert st.net.inbox[0].Frame?
                   && w[i] == Datagram(AckFrame(env, Flip(st.packetId)), st.net.inbox[0].sender);
          } else if DuplicateAck(env, st.packetId, next.net.inbox, w[i]) {
            DuplicateAckOfTail(env, st.packetId, st.net.inbox, w[i]);
          }
        }
      }
    }
  }

  /** A timeout or a duplicate costs one attempt: the receive goes on from
      the state after it, with the same bit and the rest of the inbox. */
  lemma SafeReceiveSkip(env: Env, st: State, n: nat)
    requires ValidId(st.packetId)
    requires n > 0 && (st.net.inbox == [] || ReceiveSkips(env, st.packetId, st.net.inbox[0]))
    ensures var next := ReceiveRound(env, st).After();
            && SafeReceive(env, st, n) == SafeReceive(env, next, n - 1)
            && next.packetId == st.packetId && next.net.inbox == Tail(st.net.inbox)
  {
  }

  /** A frame of the expected bit is delivered at once, with its sender. */
  lemma SafeReceiveExpected(env: Env, st: State, n: nat)
    requires ValidId(st.packetId)
    requires n > 0 && st.net.inbox != [] && Expected(env, st.packetId, st.net.inbox[0])
    ensures var r := SafeReceive(env, st, n);
            var e := st.net.inbox[0];
            && r.result == Ok((FromBytes(env.hash, Truncate(e.bytes)).value, e.sender))
            && r.state.packetId == Flip(st.packetId)
            && r.state.net.inbox == st.net.inbox[1..]
  {
  }

  /** A receive delivers the first frame carrying the expected bit when
      only events it goes round again on come before it, within its `n`
      attempts; the bit then flips. */
  lemma {:induction false} SafeReceiveFirstExpected(env: Env, st: State, n: nat, k: nat)
    requires ValidId(st.packetId)
    requires k < n && k < |st.net.inbox|
    requires forall j :: 0 <= j < k ==> ReceiveSkips(env, st.packetId, st.net.inbox[j])
    requires Expected(env, st.packetId, st.net.inbox[k])
    ensures var r := SafeReceive(env, st, n);
            var e := st.net.inbox[k];
            && r.result == Ok((FromBytes(env.hash, Truncate(e.bytes)).value, e.sender))
            && r.state.packetId == Flip(st.packetId)
            && r.state.net.inbox == st.net.inbox[k + 1..]
    decreases k
  {
    var round := ReceiveRound(env, st);
    if k > 0 {
      assert round.Retry?;
      var next := round.next;
      assert SafeReceive(env, st, n) == SafeReceive(env, next, n - 1);
      assert next.net.inbox == st.net.inbox[1..];
      forall j | 0 <= j < k - 1
        ensures ReceiveSkips(env, st.packetId, next.net.inbox[j])
      {
        assert next.net.inbox[j] == st.net.inbox[j + 1];
      }
      SafeReceiveFirstExpected(env, next, n - 1, k - 1);
    } else {
      SafeReceiveExpected(env, st, n);
    }
  }

  /** A receive whose `n` attempts read only timeouts and duplicates (an
      exhausted inbox times out) gives up with `ConnectionError`. */
  lemma {:induction false} SafeReceiveGivesUp(env: Env, st: State, n: nat)
    requires ValidId(st.packetId)
    requires forall j :: 0 <= j < n && j < |st.net.inbox| ==> ReceiveSkips(env, st.packetId, st.net.inbox[j])
    ensures var r := SafeReceive(env, st, n);
            r.result == Err(ConnectionError("Cannot receive packet")) && r.state.packetId == st.packetId
    decreases n
  {
    if n > 0 {
      SafeReceiveSkip(env, st, n);
      var next := ReceiveRound(env, st).After();
      forall j | 0 <= j < n - 1 && j < |next.net.inbox|
        ensures ReceiveSkips(env, st.packetId, next.net.inbox[j])
      {
        assert next.net.inbox[j] == st.net.inbox[j + 1];
      }
      SafeReceiveGivesUp(env, next, n - 1);
    }
  }

  /** One attempt of `safe_receive_packet` by the event it reads (lines
      156-172): a timeout goes round again; a duplicate is acknowledged with
      its own bit to its sender and the loop goes round again; a frame of
      the expected bit is acknowledged to its sender and delivered; a frame
      that does not decode raises its `ValueError`. */
  lemma SafeReceiveFirstReply(env: Env, st: State, n: nat)
    requires ValidId(st.packetId)
    requires n > 0 && st.net.inbox != []
    ensures var rest := Net(st.net.inbox[1..], st.net.losses, st.net.wire);
            var e := st.net.inbox[0];
            var r := SafeReceive(env, st, n);
            && (e.Timeout? ==> r == SafeReceive(env, State(st.packetId, rest), n - 1))
            && (e.Frame? && FromBytes(env.hash, Truncate(e.bytes)).Err? ==>
                  r == Step(Err(FromBytes(env.hash, Truncate(e.bytes)).error), State(st.packetId, rest)))
            && (e.Frame? && FromBytes(env.hash, Truncate(e.bytes)).Ok? ==>
                  var p := FromBytes(env.hash, Truncate(e.bytes)).value;
                  && (p.header.identifier != st.packetId ==>
                        r == SafeReceive(env, State(st.packetId, SendPacket(rest, Control(env, Flip(st.packetId), ACK), e.sender)), n - 1))
                  && (p.header.identifier == st.packetId ==>
                        r == Step(Ok((p, e.sender)), State(Flip(st.packetId), SendPacket(rest, Control(env, st.packetId, ACK), e.sender)))))
  {
  }
}
