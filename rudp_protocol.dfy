/** `BaseProtocol` and the two roles built on it, as a class whose fields are
    the sequence bit, the socket and the host's files. Every method is
    proved to leave the state the functions of RudpArq, RudpSession and
    RudpHost describe. */
module RudpProtocol {
  import opened Bytes
  import opened Exceptions
  import opened RudpFrame
  import opened RudpArq
  import opened RudpSession
  import opened RudpHost
  import opened Paths
  import Utf8

  class Protocol {
    /** The hash behind checksums and the DNS lookup. */
    const env: Env
    /** The host's directories, which cannot be opened as files. */
    const dirs: set<Path>
    /** `REPEATS`, the attempts `send_file` and `receive_file` allow each
        packet. */
    const repeats: nat

    /** `packet_id`. */
    var packetId: int
    /** The socket: events still to arrive, the loss oracle and what was sent. */
    var inbox: seq<Event>
    var losses: seq<bool>
    var wire: seq<Datagram>
    /** The host's regular files, by path. */
    var files: Files

    function Socket(): Net
      reads this
    {
      Net(inbox, losses, wire)
    }

    function Engine(): State
      reads this
    {
      State(packetId, Socket())
    }

    predicate Valid()
      reads this
    {
      ValidId(packetId)
    }

    /** `BaseProtocol.__init__`: a fresh socket and bit 0. */
    constructor (env: Env, dirs: set<Path>, files: Files, inbox: seq<Event>, losses: seq<bool>)
      ensures this.env == env && this.dirs == dirs && this.files == files && this.repeats == Repeats
      ensures Engine() == State(0, Net(inbox, losses, []))
      ensures Valid()
    {
      this.env := env;
      this.dirs := dirs;
      this.repeats := Repeats;
      this.files := files;
      this.inbox := inbox;
      this.losses := losses;
      this.wire := [];
      this.packetId := 0;
    }

    /** `flip_packet_id`: `packet_id ^= 1`. */
    method FlipPacketId()
      modifies this
      ensures packetId == Flip(old(packetId))
      ensures Socket() == old(Socket()) && files == old(files)
    {
      if packetId % 2 == 0 {
        packetId := packetId + 1;
      } else {
        packetId := packetId - 1;
      }
    }

    /** `send_packet`: the loss oracle decides whether the datagram leaves. */
    method SendPacket(packet: Packet, address: Address)
      requires Sendable(packet)
      modifies this
      ensures Socket() == RudpArq.SendPacket(old(Socket()), packet, address)
      ensures packetId == old(packetId) && files == old(files)
    {
      var lost := losses != [] && losses[0];
      if losses != [] {
        losses := losses[1..];
      }
      if !lost {
        wire := wire + [Datagram(ToBytes(packet), address)];
      }
    }

    /** `receive_packet`: a timeout gives nothing; a frame that does not
        decode gives its `ValueError`. */
    method ReceivePacket() returns (r: Received)
      modifies this
      ensures (r, Socket()) == Receive(env, old(Socket()))
      ensures packetId == old(packetId) && files == old(files)
    {
      if inbox == [] {
        return NoReply;
      }
      var event := inbox[0];
      inbox := inbox[1..];
      match event {
        case Timeout =>
          r := NoReply;
        case Frame(bytes, sender) =>
          match FromBytes(env.hash, Truncate(bytes)) {
            case Ok(p) => r := Got(p, sender);
            case Err(e) => r := Malformed(e);
          }
      }
    }

    /** One pass of the loop of `safe_send_packet`: transmit, wait, judge
        the reply, as RudpArq.SendRound says. */
    method SendOnce(packet: Packet, address: Address) returns (finished: bool, r: Result<()>)
      requires Constructed(env.hash, packet)
      modifies this
      ensures var t := SendRound(env, old(Engine()), packet, address);
              && (finished <==> t.Finish?)
              && (t.Retry? ==> Engine() == t.next)
              && (t.Finish? ==> Step(r, Engine()) == t.step)
      ensures files == old(files)
    {
      SendPacket(packet, address);
      var received := ReceivePacket();
      finished, r := true, Ok(());
      match received {
        case NoReply =>
          finished := false;
        case Malformed(e) =>
          r := Err(e);
        case Got(p, sender) =>
          if AddressesEq(env, sender, address) {
            r := Err(RuntimeError("Multiple connections are not implemented"));
          } else if CheckPacket(env, packetId, p) && p.header.tag == ACK {
            FlipPacketId();
          } else if p.header.identifier != packetId {
            finished := false;
          } else if p.header.tag == ERROR {
            r := Err(RuntimeError("Wrong protocol"));
          } else {
            SendPacket(Control(env, packet.header.identifier, ERROR), address);
            r := Err(RuntimeError("Wrong protocol"));
          }
      }
    }

    /** `safe_send_packet(packet, address, repeats)`. */
    method SafeSendPacket(packet: Packet, address: Address, repeats: nat) returns (r: Result<()>)
      requires Constructed(env.hash, packet)
      modifies this
      ensures Step(r, Engine()) == SafeSend(env, old(Engine()), packet, address, repeats)
      ensures files == old(files)
    {
      for i := 0 to repeats
        invariant files == old(files)
        invariant SafeSend(env, Engine(), packet, address, repeats - i) == SafeSend(env, old(Engine()), packet, address, repeats)
      {
        ghost var before := Engine();
        var finished;
        finished, r := SendOnce(packet, address);
        assert SafeSend(env, before, packet, address, repeats - i) ==
               match SendRound(env, before, packet, address)
               case Retry(next) => SafeSend(env, next, packet, address, repeats - i - 1)
               case Finish(step) => step;
        if finished {
          return;
        }
      }
      return Err(ConnectionError("The address is not replying"));
    }

    /** `safe_receive_packet(repeats)`. */
    method SafeReceivePacket(repeats: nat) returns (r: Result<(Packet, Address)>)
      requires Valid()
      modifies this
      ensures Step(r, Engine()) == SafeReceive(env, old(Engine()), repeats)
      ensures Valid() && files == old(files)
    {
      for i := 0 to repeats
        invariant Valid() && files == old(files)
        invariant SafeReceive(env, Engine(), repeats - i) == SafeReceive(env, old(Engine()), repeats)
      {
        ghost var before := Engine();
        var received := ReceivePacket();
        assert SafeReceive(env, before, repeats - i) ==
               match ReceiveRound(env, before)
               case Retry(next) => SafeReceive(env, next, repeats - i - 1)
               case Finish(step) => step;
        match received {
          case NoReply =>
          case Malformed(e) =>
            return Err(e);
          case Got(p, sender) =>
            if CheckPacket(env, packetId, p) {
              SendPacket(Control(env, p.header.identifier, ACK), sender);
              FlipPacketId();
              return Ok((p, sender));
            } else if p.header.identifier != packetId {
              SendPacket(Control(env, p.header.identifier, ACK), sender);
            } else {
              // A decoded packet fails `check_packet` only by its identifier.
              assert false;
              return Err(RuntimeError("Wrong protocol"));
            }
        }
      }
      return Err(ConnectionError("Cannot receive packet"));
    }

    /** `send_part` of `send_file`. */
    method SendPart(part: Part, address: Address) returns (r: Result<()>)
      requires Valid()
      modifies this
      ensures Step(r, Engine()) == RudpSession.SendPart(env, old(Engine()), part, address, repeats)
      ensures Valid() && files == old(files)
    {
      var made := NewPacket(env.hash, packetId, part.tag, part.data);
      if made.Err? {
        return Err(made.error);
      }
      SafeSendFlipsOnce(env, Engine(), made.value, address, repeats);
      r := SafeSendPacket(made.value, address, repeats);
    }

    /** `send_file(filepath, address)`: SOF with the file's name, then the
        file's content. */
    method SendFile(filepath: Path, address: Address) returns (r: Result<()>)
      requires Valid()
      modifies this
      ensures Step(r, Engine()) == SendFrom(env, old(Engine()), old(files), dirs, filepath, address, repeats)
      ensures Valid() && files == old(files)
    {
      ghost var start := Engine();
      var file := ReadFile(files, dirs, filepath);
      if file.Err? {
        return Err(file.error);
      }
      var content := file.value;
      var name := Name(filepath);
      ghost var parts := DataParts(Chunks(content)) + [Part(EOF, [])];
      assert FileParts(name, content) == [Part(SOF, Utf8.Encode(name))] + parts;
      assert SendFrom(env, start, files, dirs, filepath, address, repeats) == RudpSession.SendParts(env, start, [Part(SOF, Utf8.Encode(name))] + parts, address, repeats);
      SendPartsCons(env, Engine(), Part(SOF, Utf8.Encode(name)), parts, address, repeats);
      r := SendPart(Part(SOF, Utf8.Encode(name)), address);
      if r.Err? {
        return;
      }
      r := SendContent(content, address);
    }

    /** The loop of `send_file`: the content in reads of at most 58 bytes,
        each a DATA packet, then EOF. */
    method SendContent(content: seq<byte>, address: Address) returns (r: Result<()>)
      requires Valid()
      modifies this
      ensures Step(r, Engine()) == RudpSession.SendParts(env, old(Engine()), DataParts(Chunks(content)) + [Part(EOF, [])], address, repeats)
      ensures Valid() && files == old(files)
    {
      var pos := 0;
      assert content[pos..] == content;
      while pos < |content|
        invariant 0 <= pos <= |content|
        invariant Valid() && files == old(files)
        invariant RudpSession.SendParts(env, Engine(), DataParts(Chunks(content[pos..])) + [Part(EOF, [])], address, repeats)
                  == RudpSession.SendParts(env, old(Engine()), DataParts(Chunks(content)) + [Part(EOF, [])], address, repeats)
        decreases |content| - pos
      {
        var end := if pos + MaxDataSize <= |content| then pos + MaxDataSize else |content|;
        var data := content[pos..end];
        ChunksFrom(content, pos);
        ghost var rest := DataParts(Chunks(content[end..])) + [Part(EOF, [])];
        assert DataParts(Chunks(content[pos..])) + [Part(EOF, [])] == [Part(DATA, data)] + rest;
        SendPartsCons(env, Engine(), Part(DATA, data), rest, address, repeats);
        r := SendPart(Part(DATA, data), address);
        if r.Err? {
          return;
        }
        pos := end;
      }
      assert content[pos..] == [];
      assert DataParts(Chunks(content[pos..])) + [Part(EOF, [])] == [Part(EOF, [])] + [];
      SendPartsCons(env, Engine(), Part(EOF, []), [], address, repeats);
      // The read that ended the loop returned nothing, and that is what EOF carries.
      r := SendPart(Part(EOF, []), address);
      if r.Ok? {
        r := Ok(());
      }
    }

    /** The body of the loop of `receive_file` once `safe_receive_packet`
        has returned `received`: either the loop ends (`done`) with result
        `r`, or the packet is accepted and a DATA payload appended to the
        file; `seenSof` is the loop's `sof` variable. */
    method Judge(filepath: Path, from: Address, seenSof: bool, received: Result<(Packet, Address)>)
      returns (done: bool, r: Result<()>, sofAfter: bool, ghost t: Turn)
      requires Valid() && filepath in files
      modifies this
      ensures Valid() && filepath in files
      ensures t == ReceiveTurn(env, Step(received, old(Engine())), from, seenSof)
      ensures && (done <==> t.Stop?)
              && (t.Stop? ==> r == t.result && Engine() == t.last && files == old(files))
              && (t.Accept? ==> Engine() == old(Engine()) && sofAfter)
              && (t.Accept? && t.packet.header.tag == DATA ==>
                    files == old(files)[filepath := old(files[filepath]) + t.packet.data])
              && (t.Accept? && t.packet.header.tag != DATA ==> files == old(files))
    {
      t := ReceiveTurn(env, Step(received, Engine()), from, seenSof);
      done, sofAfter := true, seenSof;
      if received.Err? {
        return done, Err(received.error), sofAfter, t;
      }
      var (packet, address) := received.value;
      if AddressesEq(env, address, from) {
        return done, Err(RuntimeError("Multiple connections are not supported")), sofAfter, t;
      }
      if packet.header.tag == ERROR {
        r := Err(RuntimeError("Wrong protocol"));
      } else if packet.header.tag == SOF {
        if seenSof {
          SendPacket(Control(env, packetId, ERROR), address);
          return done, Err(RuntimeError("Protocol error: SOF already recieved")), sofAfter, t;
        }
        done, r, sofAfter := false, Ok(()), true;
      } else if packet.header.tag == DATA {
        if !seenSof {
          SendPacket(Control(env, packetId, ERROR), address);
          return done, Err(RuntimeError("Protocol error: expected SOF before DATA")), sofAfter, t;
        }
        files := files[filepath := files[filepath] + packet.data];
        done, r := false, Ok(());
      } else if packet.header.tag == EOF {
        r := Ok(());
      } else {
        r := Err(ValueError("Received unsupported for file receiving tag"));
      }
    }

    /** The loop of `receive_file` still to run, with `seenSof` as its
        `sof`, ends as `goal` and leaves the file at `start + goal.written`. */
    ghost predicate Pending(filepath: Path, from: Address, seenSof: bool, goal: FileStep, start: seq<byte>)
      reads this
      requires Valid() && filepath in files
    {
      var f := RudpSession.ReceiveFile(env, Engine(), from, seenSof, repeats);
      f.result == goal.result && f.state == goal.state && files[filepath] + f.written == start + goal.written
    }

    /** One pass of the loop of `receive_file`: `safe_receive_packet`, then
        the verdict on what it returned. The file and the engine move as one
        step of RudpSession.ReceiveFile does: the loop either ends as `goal`
        or has the rest of it still to run, on fewer events. */
    method ReceiveStep(filepath: Path, from: Address, seenSof: bool, ghost goal: FileStep, ghost start: seq<byte>)
      returns (done: bool, r: Result<()>, sofAfter: bool)
      requires Valid() && filepath in files && Pending(filepath, from, seenSof, goal, start)
      modifies this
      ensures Valid() && filepath in files && files == old(files)[filepath := files[filepath]]
      ensures done ==> r == goal.result && Engine() == goal.state && files[filepath] == start + goal.written
      ensures !done ==> Pending(filepath, from, sofAfter, goal, start) && |inbox| < |old(inbox)|
    {
      ghost var written := files[filepath];
      ghost var st0 := Engine();
      RudpSession.ReceiveFileUnfold(env, st0, from, seenSof, repeats);
      var received := SafeReceivePacket(repeats);
      ghost var st1 := Engine();
      ghost var t;
      done, r, sofAfter, t := Judge(filepath, from, seenSof, received);
      if done {
        assert written + [] == written;
      } else {
        assert t.Accept? && Engine() == st1 == t.next;
        ghost var data := if t.packet.header.tag == DATA then t.packet.data else [];
        ghost var rest := RudpSession.ReceiveFile(env, st1, from, true, repeats);
        assert files[filepath] == written + data;
        assert written + (data + rest.written) == (written + data) + rest.written;
      }
    }

    /** `receive_file(filepath, from_address, sof)`: open the file for
        writing, then accept packets until EOF, appending DATA payloads. */
    method ReceiveFile(filepath: Path, from: Address, sof: bool) returns (r: Result<()>)
      requires Valid()
      modifies this
      ensures Outcome(r, Engine(), files) == ReceiveInto(env, old(Engine()), old(files), dirs, filepath, from, sof, repeats)
      ensures Valid()
    {
      var handle := OpenForWriting(dirs, filepath);
      if handle.Err? {
        return Err(handle.error);
      }
      ghost var st := Engine();
      ghost var goal := RudpSession.ReceiveFile(env, st, from, sof, repeats);
      var key := handle.value;
      files := files[key := []];
      assert Engine() == st;
      r := ReceiveLoop(key, from, sof);
      assert [] + goal.written == goal.written;
    }

    /** The loop of `receive_file`: packets until EOF, each DATA payload
        appended to what the file already holds. */
    method ReceiveLoop(filepath: Path, from: Address, sof: bool) returns (r: Result<()>)
      requires Valid() && filepath in files
      modifies this
      ensures Valid() && filepath in files && files == old(files)[filepath := files[filepath]]
      ensures var goal := RudpSession.ReceiveFile(env, old(Engine()), from, sof, repeats);
              r == goal.result && Engine() == goal.state && files[filepath] == old(files[filepath]) + goal.written
    {
      ghost var goal := RudpSession.ReceiveFile(env, Engine(), from, sof, repeats);
      ghost var start := files[filepath];
      var seenSof := sof;
      var done := false;
      r := Ok(());
      while !done
        invariant Valid()
        invariant filepath in files && files == old(files)[filepath := files[filepath]]
        invariant !done ==> Pending(filepath, from, seenSof, goal, start)
        invariant done ==> r == goal.result && Engine() == goal.state && files[filepath] == start + goal.written
        decreases !done, |inbox|
      {
        done, r, seenSof := ReceiveStep(filepath, from, seenSof, goal, start);
      }
    }

    /** `Server.handle_sof_packet(packet, address)`, with the server's
        `save_dir`. */
    method HandleSofPacket(saveDir: Path, packet: Packet, address: Address) returns (r: Result<()>)
      requires Valid()
      modifies this
      ensures Outcome(r, Engine(), files)
              == ServerSession(env, old(Engine()), old(files), dirs, saveDir, packet, address, repeats)
    {
      SendPacket(Control(env, 0, ACK), address);
      var decoded := Utf8.Decode(packet.data);
      if decoded.None? {
        return Err(ValueError("'utf-8' codec can't decode"));
      }
      var filename := decoded.value;
      if !CheckFilename(filename) {
        return Err(ValueError("Invalid filename"));
      }
      r := ReceiveFile(Div(saveDir, Parse(filename)), address, true);
      if r.Err? {
        return;
      }
      r := SendFile(Parse(filename), address);
    }

    /** `Client.send(filepath)`, with the client's server address and
        `save_dir`. */
    method Send(saveDir: Path, server: Address, filepath: Path) returns (r: Result<()>)
      requires Valid()
      modifies this
      ensures Outcome(r, Engine(), files)
              == ClientSession(env, old(Engine()), old(files), dirs, saveDir, filepath, server, repeats)
    {
      r := SendFile(filepath, server);
      if r.Err? {
        return;
      }
      r := ReceiveFile(Div(saveDir, Parse(Name(filepath))), server, false);
    }
  }
}
