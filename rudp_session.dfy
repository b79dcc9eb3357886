/** File transfer over the alternating-bit exchange: `send_file` streams a
    file as SOF, DATA chunks and EOF; `receive_file` rebuilds it; the
    server's file-name check. */
module RudpSession {
  import opened Bytes
  import opened Exceptions
  import opened RudpFrame
  import opened RudpArq
  import Utf8

  /** One packet `send_file` asks `safe_send_packet` to deliver. */
  datatype Part = Part(tag: int, data: seq<byte>)

  /** The successive `file.read(Packet.max_data_size())` results that are
      non-empty, i.e. the DATA payloads. */
  function Chunks(content: seq<byte>): seq<seq<byte>>
    decreases |content|
  {
    if content == [] then []
    else if |content| <= MaxDataSize then [content]
    else [content[..MaxDataSize]] + Chunks(content[MaxDataSize..])
  }

  function Concat(chunks: seq<seq<byte>>): seq<byte> {
    if chunks == [] then [] else chunks[0] + Concat(chunks[1..])
  }

  /** The chunks are non-empty, at most 58 bytes, all but the last exactly
      58, and together they are the file. */
  lemma {:induction false} ChunksSplitFile(content: seq<byte>)
    ensures Concat(Chunks(content)) == content
    ensures forall i :: 0 <= i < |Chunks(content)| ==> 0 < |Chunks(content)[i]| <= MaxDataSize
    ensures forall i :: 0 <= i < |Chunks(content)| - 1 ==> |Chunks(content)[i]| == MaxDataSize
    ensures |Chunks(content)| == (|content| + MaxDataSize - 1) / MaxDataSize
    decreases |content|
  {
    if |content| > MaxDataSize {
      var rest := content[MaxDataSize..];
      ChunksSplitFile(rest);
      assert Chunks(content)[1..] == Chunks(rest);
      assert content == content[..MaxDataSize] + rest;
    }
  }

  function DataParts(chunks: seq<seq<byte>>): (parts: seq<Part>)
    ensures |parts| == |chunks|
    ensures forall i :: 0 <= i < |chunks| ==> parts[i] == Part(DATA, chunks[i])
  {
    if chunks == [] then [] else [Part(DATA, chunks[0])] + DataParts(chunks[1..])
  }

  /** Everything `send_file` sends, in order: SOF with the UTF-8 name, the
      DATA chunks, and EOF with the buffer that ended the read loop, which
      is always empty. */
  function FileParts(name: string, content: seq<byte>): seq<Part> {
    [Part(SOF, Utf8.Encode(name))] + DataParts(Chunks(content)) + [Part(EOF, [])]
  }

  /** `send_part`: build the packet with the current bit (the constructor
      may raise) and deliver it with `safe_send_packet`. */
  function SendPart(env: Env, st: State, part: Part, address: Address, repeats: nat): (r: Step<()>)
    requires ValidId(st.packetId)
    ensures r.state.packetId == if r.result.Ok? then Flip(st.packetId) else st.packetId
  {
    match NewPacket(env.hash, st.packetId, part.tag, part.data)
    case Err(e) => Step(Err(e), st)
    case Ok(packet) =>
      SafeSendFlipsOnce(env, st, packet, address, repeats);
      SafeSend(env, st, packet, address, repeats)
  }

  /** `send_part` for each part in turn; the first failure ends the file. */
  function SendParts(env: Env, st: State, parts: seq<Part>, address: Address, repeats: nat): (r: Step<()>)
    requires ValidId(st.packetId)
    ensures ValidId(r.state.packetId)
    decreases |parts|
  {
    if parts == [] then Step(Ok(()), st)
    else
      var s := SendPart(env, st, parts[0], address, repeats);
      if s.result.Err? then s else SendParts(env, s.state, parts[1..], address, repeats)
  }

  /** `send_file(filepath, address)`: `file` is the content of `filepath`,
      or the error opening it raised; `name` is its last component. A file
      that cannot be opened sends nothing; a file delivered whole leaves
      the bit flipped exactly when it had an odd number of chunks, since
      SOF and EOF flip it twice. */
  function SendFile(env: Env, st: State, file: Result<seq<byte>>, name: string, address: Address, repeats: nat): (r: Step<()>)
    requires ValidId(st.packetId)
    ensures ValidId(r.state.packetId)
    ensures file.Err? ==> r == Step(Err(file.error), st)
    ensures file.Ok? && r.result.Ok? ==>
      r.state.packetId == if |Chunks(file.value)| % 2 == 0 then st.packetId else Flip(st.packetId)
  {
    match file
    case Err(e) => Step(Err(e), st)
    case Ok(content) =>
      var parts := FileParts(name, content);
      SendPartsParity(env, st, parts, address, repeats);
      TwoMoreParts(|Chunks(content)|, |parts|);
      SendParts(env, st, parts, address, repeats)
  }

  lemma TwoMoreParts(chunks: nat, parts: nat)
    requires parts == chunks + 2
    ensures parts % 2 == chunks % 2
  {
  }

  /** The first read of the file from `pos` on is the next chunk. */
  lemma ChunksFrom(content: seq<byte>, pos: nat)
    requires pos < |content|
    ensures var end := if pos + MaxDataSize <= |content| then pos + MaxDataSize else |content|;
            Chunks(content[pos..]) == [content[pos..end]] + Chunks(content[end..])
  {
    var end := if pos + MaxDataSize <= |content| then pos + MaxDataSize else |content|;
    var c := content[pos..];
    if |c| > MaxDataSize {
      assert Chunks(c) == [c[..MaxDataSize]] + Chunks(c[MaxDataSize..]);
      assert c[..MaxDataSize] == content[pos..end];
      assert c[MaxDataSize..] == content[end..];
    } else {
      assert content[pos..end] == content[pos..];
      assert Chunks(content[end..]) == [];
    }
  }

  /** Sending a non-empty list of parts is sending the first, then the rest
      unless the first failed. */
  lemma SendPartsCons(env: Env, st: State, part: Part, rest: seq<Part>, address: Address, repeats: nat)
    requires ValidId(st.packetId)
    ensures var s := SendPart(env, st, part, address, repeats);
            SendParts(env, st, [part] + rest, address, repeats)
            == if s.result.Err? then s else SendParts(env, s.state, rest, address, repeats)
  {
    assert ([part] + rest)[1..] == rest;
  }

  /** Each delivered part flips the bit once, so a whole file leaves it
      flipped exactly when it had an odd number of parts. */
  lemma {:induction false} SendPartsParity(env: Env, st: State, parts: seq<Part>, address: Address, repeats: nat)
    requires ValidId(st.packetId)
    ensures var r := SendParts(env, st, parts, address, repeats);
            r.result.Ok? ==> r.state.packetId == if |parts| % 2 == 0 then st.packetId else Flip(st.packetId)
    decreases |parts|
  {
    if parts != [] {
      var s := SendPart(env, st, parts[0], address, repeats);
      if s.result.Ok? {
        var rest := SendParts(env, s.state, parts[1..], address, repeats);
        assert SendParts(env, st, parts, address, repeats) == rest;
        SendPartsParity(env, s.state, parts[1..], address, repeats);
        if rest.result.Ok? {
          OneFewer(|parts|);
          assert |parts[1..]| == |parts| - 1;
          if |parts| % 2 == 0 {
            FlipTwice(st.packetId);
            assert rest.state.packetId == Flip(s.state.packetId);
          } else {
            assert rest.state.packetId == s.state.packetId;
          }
        }
      }
    }
  }

  lemma FlipTwice(id: int)
    requires ValidId(id)
    ensures Flip(Flip(id)) == id
  {
  }

  lemma OneFewer(n: nat)
    requires n >= 1
    ensures (n - 1) % 2 == 0 <==> n % 2 == 1
  {
  }

  /** A file name whose UTF-8 form exceeds 58 bytes makes the SOF packet's
      constructor raise before anything is sent. */
  lemma SendFileLongName(env: Env, st: State, content: seq<byte>, name: string, address: Address, repeats: nat)
    requires ValidId(st.packetId)
    requires |Utf8.Encode(name)| > MaxDataSize
    ensures SendFile(env, st, Ok(content), name, address, repeats)
            == Step(Err(ValueError("data is larger than max data size")), st)
  {
  }

  /** How many packets a file takes: SOF, one per started chunk, EOF. */
  lemma FilePartsCount(name: string, content: seq<byte>)
    ensures |FileParts(name, content)| == 2 + (|content| + MaxDataSize - 1) / MaxDataSize
  {
    ChunksSplitFile(content);
  }

  // ----- receive_file -----

  /** The outcome of `receive_file`: result, state, the bytes it wrote to
      the destination file, and the packets it accepted. */
  datatype FileStep = FileStep(result: Result<()>, state: State, written: seq<byte>, accepted: seq<Packet>)

  /** The engine after answering `address` with an ERROR packet of its
      current bit. */
  function SendError(env: Env, st: State, address: Address): (r: State)
    requires ValidId(st.packetId)
    ensures r.packetId == st.packetId && r.net.inbox == st.net.inbox
  {
    State(st.packetId, SendPacket(st.net, Control(env, st.packetId, ERROR), address))
  }

  /** How one pass of the loop of `receive_file` ends: with a packet the
      session accepts and goes on after (a SOF it expected, or DATA after a
      SOF), or with the end of the loop, its result, the final state and the
      EOF packet if that is what ended it. */
  datatype Turn =
    | Accept(packet: Packet, next: State)
    | Stop(result: Result<()>, last: State, eof: seq<Packet>)

  /** The body of that loop after `safe_receive_packet` returned `s`. */
  function ReceiveTurn(env: Env, s: Step<(Packet, Address)>, from: Address, sof: bool): (t: Turn)
    requires ValidId(s.state.packetId)
    ensures t.Accept? ==>
              && s.result.Ok? && t.packet == s.result.value.0 && t.next == s.state
              && ((t.packet.header.tag == SOF && !sof) || (t.packet.header.tag == DATA && sof))
    ensures t.Stop? ==>
              && ValidId(t.last.packetId)
              && t.last.packetId == s.state.packetId
              && s.state.net.wire <= t.last.net.wire
              && (t.result.Ok? <==> t.eof != [])
              && (t.eof != [] ==> s.result.Ok? && t.eof == [s.result.value.0] && t.eof[0].header.tag == EOF)
    ensures s.result.Err? ==> t == Stop(Err(s.result.error), s.state, [])
  {
    if s.result.Err? then Stop(Err(s.result.error), s.state, [])
    else
      var (packet, address) := s.result.value;
      var st' := s.state;
      var tag := packet.header.tag;
      if AddressesEq(env, address, from) then
        Stop(Err(RuntimeError("Multiple connections are not supported")), st', [])
      else if tag == ERROR then
        Stop(Err(RuntimeError("Wrong protocol")), st', [])
      else if tag == SOF then
        if sof then
          Stop(Err(RuntimeError("Protocol error: SOF already recieved")), SendError(env, st', address), [])
        else
          Accept(packet, st')
      else if tag == DATA then
        if !sof then
          Stop(Err(RuntimeError("Protocol error: expected SOF before DATA")), SendError(env, st', address), [])
        else
          Accept(packet, st')
      else if tag == EOF then
        Stop(Ok(()), st', [packet])
      else
        Stop(Err(ValueError("Received unsupported for file receiving tag")), st', [])
  }

  /** The branch table of that loop body: a packet from another peer, an
      ERROR, a second SOF, DATA before SOF, EOF and an unknown tag each end
      the file their own way; only a first SOF or DATA after SOF goes on. */
  lemma ReceiveTurnCases(env: Env, s: Step<(Packet, Address)>, from: Address, sof: bool)
    requires ValidId(s.state.packetId) && s.result.Ok?
    ensures var t := ReceiveTurn(env, s, from, sof);
            var (packet, address) := s.result.value;
            var tag := packet.header.tag;
            && (AddressesEq(env, address, from) ==>
                  t == Stop(Err(RuntimeError("Multiple connections are not supported")), s.state, []))
            && (!AddressesEq(env, address, from) ==>
                  && (t.Accept? <==> (tag == SOF && !sof) || (tag == DATA && sof))
                  && (tag == ERROR ==> t == Stop(Err(RuntimeError("Wrong protocol")), s.state, []))
                  && ((tag == SOF && sof) || (tag == DATA && !sof) ==>
                        && t.Stop? && t.result.Err? && t.result.error.RuntimeError?
                        && t.last == SendError(env, s.state, address) && t.eof == [])
                  && (tag == EOF ==> t == Stop(Ok(()), s.state, [packet]))
                  && (tag != SOF && tag != DATA && tag != EOF && tag != ERROR ==>
                        t == Stop(Err(ValueError("Received unsupported for file receiving tag")), s.state, [])))
  {
  }

  /** `receive_file(filepath, from_address, sof)`: its loop, which ends
      because every accepted packet uses up an event. */
  function ReceiveFile(env: Env, st: State, from: Address, sof: bool, repeats: nat): (r: FileStep)
    requires ValidId(st.packetId)
    ensures ValidId(r.state.packetId)
    decreases |st.net.inbox|
  {
    var s := SafeReceive(env, st, repeats);
    match ReceiveTurn(env, s, from, sof)
    case Stop(result, last, eof) => FileStep(result, last, [], eof)
    case Accept(packet, next) =>
      var r := ReceiveFile(env, next, from, true, repeats);
      var data := if packet.header.tag == DATA then packet.data else [];
      FileStep(r.result, r.state, data + r.written, [packet] + r.accepted)
  }

  /** One pass of that loop, unfolded: a stop ends the file with nothing
      written, an accepted packet adds its payload to what the rest writes. */
  lemma ReceiveFileUnfold(env: Env, st: State, from: Address, sof: bool, repeats: nat)
    requires ValidId(st.packetId)
    ensures var t := ReceiveTurn(env, SafeReceive(env, st, repeats), from, sof);
            var f := ReceiveFile(env, st, from, sof, repeats);
            && (t.Stop? ==> f.result == t.result && f.state == t.last && f.written == [])
            && (t.Accept? ==>
                  var rest := ReceiveFile(env, t.next, from, true, repeats);
                  && f.result == rest.result && f.state == rest.state
                  && f.written == (if t.packet.header.tag == DATA then t.packet.data else []) + rest.written)
  {
  }

  /** The packet sequences `receive_file` accepts, starting with `sof`
      already seen or not: one SOF (only if not yet seen), DATA only after a
      SOF, and nothing after EOF. */
  predicate Framed(ps: seq<Packet>, sof: bool)
    decreases |ps|
  {
    if ps == [] then true
    else if ps[0].header.tag == SOF then !sof && Framed(ps[1..], true)
    else if ps[0].header.tag == DATA then sof && Framed(ps[1..], true)
    else ps[0].header.tag == EOF && |ps| == 1
  }

  /** The payloads of the DATA packets, in order. */
  function Payloads(ps: seq<Packet>): seq<byte> {
    if ps == [] then []
    else (if ps[0].header.tag == DATA then ps[0].data else []) + Payloads(ps[1..])
  }

  /** What `receive_file` accepts is a well-framed sequence. */
  lemma {:induction false} ReceiveFileFramed(env: Env, st: State, from: Address, sof: bool, repeats: nat)
    requires ValidId(st.packetId)
    ensures Framed(ReceiveFile(env, st, from, sof, repeats).accepted, sof)
    decreases |st.net.inbox|
  {
    match ReceiveTurn(env, SafeReceive(env, st, repeats), from, sof)
    case Stop(result, last, eof) =>
    case Accept(packet, next) =>
      ReceiveFileFramed(env, next, from, true, repeats);
      var got := ReceiveFile(env, st, from, sof, repeats).accepted;
      assert got[1..] == ReceiveFile(env, next, from, true, repeats).accepted;
  }

  /** `receive_file` succeeds exactly when what it accepted ends with EOF. */
  lemma {:induction false} ReceiveFileSucceeds(env: Env, st: State, from: Address, sof: bool, repeats: nat)
    requires ValidId(st.packetId)
    ensures var r := ReceiveFile(env, st, from, sof, repeats);
            r.result.Ok? <==> r.accepted != [] && r.accepted[|r.accepted| - 1].header.tag == EOF
    decreases |st.net.inbox|
  {
    match ReceiveTurn(env, SafeReceive(env, st, repeats), from, sof)
    case Stop(result, last, eof) =>
    case Accept(packet, next) =>
      ReceiveFileSucceeds(env, next, from, true, repeats);
  }

  /** The DATA payloads of what `receive_file` accepts, in arrival order,
      are exactly what it writes to the file. */
  lemma {:induction false} ReceiveFileWrites(env: Env, st: State, from: Address, sof: bool, repeats: nat)
    requires ValidId(st.packetId)
    ensures var r := ReceiveFile(env, st, from, sof, repeats);
            r.written == Payloads(r.accepted)
    decreases |st.net.inbox|
  {
    match ReceiveTurn(env, SafeReceive(env, st, repeats), from, sof)
    case Stop(result, last, eof) =>
      assert Payloads(eof) == [] by {
        if eof != [] {
          assert eof[1..] == [];
        }
      }
    case Accept(packet, next) =>
      ReceiveFileWrites(env, next, from, true, repeats);
      var got := ReceiveFile(env, st, from, sof, repeats).accepted;
      assert got[1..] == ReceiveFile(env, next, from, true, repeats).accepted;
  }

  /** The packets `receive_file` accepts carry alternating bits, starting
      with the engine's. */
  lemma {:induction false} ReceiveFileAlternates(env: Env, st: State, from: Address, sof: bool, repeats: nat)
    requires ValidId(st.packetId)
    ensures var got := ReceiveFile(env, st, from, sof, repeats).accepted;
            && (got != [] ==> got[0].header.identifier == st.packetId)
            && (forall i :: 0 < i < |got| ==> got[i].header.identifier == Flip(got[i - 1].header.identifier))
    decreases |st.net.inbox|
  {
    ReceiveBit(env, st, repeats);
    match ReceiveTurn(env, SafeReceive(env, st, repeats), from, sof)
    case Stop(result, last, eof) =>
    case Accept(packet, next) =>
      ReceiveFileAlternates(env, next, from, true, repeats);
      var got := ReceiveFile(env, st, from, sof, repeats).accepted;
      var rest := ReceiveFile(env, next, from, true, repeats).accepted;
      assert got == [packet] + rest;
      forall i | 0 < i < |got|
        ensures got[i].header.identifier == Flip(got[i - 1].header.identifier)
      {
        assert got[i] == rest[i - 1];
        if i > 1 {
          assert got[i - 1] == rest[i - 2];
        }
      }
  }

  /** A successful transfer leaves the engine's bit flipped past the last
      packet it accepted, ready for the next exchange. */
  lemma {:induction false} ReceiveFileFinalBit(env: Env, st: State, from: Address, sof: bool, repeats: nat)
    requires ValidId(st.packetId)
    ensures var r := ReceiveFile(env, st, from, sof, repeats);
            r.result.Ok? ==> r.accepted != [] && r.state.packetId == Flip(r.accepted[|r.accepted| - 1].header.identifier)
    decreases |st.net.inbox|
  {
    var s := SafeReceive(env, st, repeats);
    match ReceiveTurn(env, s, from, sof)
    case Stop(result, last, eof) =>
      ReceiveBit(env, st, repeats);
      assert ReceiveFile(env, st, from, sof, repeats) == FileStep(result, last, [], eof);
      if result.Ok? {
        assert eof == [s.result.value.0] && last.packetId == s.state.packetId;
      }
    case Accept(packet, next) =>
      ReceiveFileFinalBit(env, next, from, true, repeats);
      var r := ReceiveFile(env, st, from, sof, repeats);
      var r' := ReceiveFile(env, next, from, true, repeats);
      if r.result.Ok? {
        assert r.accepted == [packet] + r'.accepted;
        assert r.accepted[|r.accepted| - 1] == r'.accepted[|r'.accepted| - 1];
      }
  }

  /** A packet delivered by `safe_receive_packet` carries the engine's bit,
      and the engine's bit is flipped past it. */
  lemma ReceiveBit(env: Env, st: State, repeats: nat)
    requires ValidId(st.packetId)
    ensures var s := SafeReceive(env, st, repeats);
            s.result.Ok? ==> && s.result.value.0.header.identifier == st.packetId
                             && s.state.packetId == Flip(st.packetId)
  {
    SafeReceiveFlipsOnce(env, st, repeats);
    SafeReceiveDelivers(env, st, repeats);
  }
}
