/** The two ends of the reliable-UDP file transfer as seen from one host:
    its files, the server's file-name check, and the conversations of
    `Server.handle_sof_packet` and `Client.send`. */
module RudpHost {
  import opened Bytes
  import opened Exceptions
  import opened RudpFrame
  import opened RudpArq
  import opened RudpSession
  import opened Paths
  import Utf8

  /** The host's regular files, by path. */
  type Files = map<Path, seq<byte>>

  /** `p` names a directory, given the host's other directories: `.` and
      `/` always do, and so does a path ending in `..`. */
  predicate IsDirectory(dirs: set<Path>, p: Path) {
    Name(p) == "" || Name(p) == ".." || p in dirs
  }

  /** `open(path, "rb").read()`: a directory raises `IsADirectoryError`
      and a missing file `FileNotFoundError`, both `OSError`s. */
  function ReadFile(files: Files, dirs: set<Path>, path: Path): (r: Result<seq<byte>>)
    ensures r.Ok? <==> path in files && !IsDirectory(dirs, path)
    ensures r.Ok? ==> r.value == files[path]
    ensures IsDirectory(dirs, path) ==> r == Err(OSError("Is a directory"))
    ensures !IsDirectory(dirs, path) && path !in files ==> r == Err(OSError("No such file or directory"))
  {
    if IsDirectory(dirs, path) then Err(OSError("Is a directory"))
    else if path !in files then Err(OSError("No such file or directory"))
    else Ok(files[path])
  }

  /** A character of the class `[!_.\d a-zA-Z]`, with `\d` read as the
      ASCII digits. */
  predicate FilenameChar(c: char) {
    c == '!' || c == '_' || c == '.' || ('0' <= c <= '9') || ('a' <= c <= 'z') || ('A' <= c <= 'Z')
  }

  /** `check_filename`: a full match of `^[!_.\da-zA-Z]+$`. */
  predicate CheckFilename(filename: string)
    ensures CheckFilename(filename) ==> filename != [] && '/' !in filename && '\\' !in filename
    ensures filename == "." || filename == ".." ==> CheckFilename(filename)
  {
    |filename| > 0 && forall i :: 0 <= i < |filename| ==> FilenameChar(filename[i])
  }

  /** An accepted name other than `.` is a single path component, so
      joining it to a directory adds exactly that component. */
  lemma CheckFilenameHasNoSeparator(filename: string)
    requires CheckFilename(filename)
    ensures filename != "." ==> Component(filename) && Parse(filename) == Path(false, [filename])
    ensures filename == "." ==> Parse(filename) == Dot
  {
    assert forall i :: 0 <= i < |filename| ==> filename[i] != '/' && filename[i] != '\\';
    if filename != "." {
      ParseComponent(filename);
    } else {
      ParseDots();
    }
  }

  /** The check lets `.` and `..` through. Joined to the save directory,
      `.` names the save directory itself, which is written over only when
      it is not a directory, and `..` always names a directory, so that
      upload is never written. */
  lemma CheckFilenameAcceptsDots(dirs: set<Path>, saveDir: Path)
    ensures CheckFilename(".") && CheckFilename("..")
    ensures Div(saveDir, Parse(".")) == saveDir
    ensures IsDirectory(dirs, Div(saveDir, Parse("..")))
  {
    ParseDots();
    assert saveDir.parts + [] == saveDir.parts;
  }

  /** What a whole conversation leaves: the result, the engine and the
      host's files. */
  datatype Outcome = Outcome(result: Result<()>, state: State, files: Files)

  /** `open(path, "wb")`: `FileNotFoundError` when the parent is not a
      directory, `IsADirectoryError` on a directory, and otherwise the key
      of the file it creates or truncates. */
  function OpenForWriting(dirs: set<Path>, path: Path): (r: Result<Path>)
    ensures r.Ok? <==> Writable(dirs, path)
    ensures r.Ok? ==> r.value == path
    ensures !IsDirectory(dirs, Parent(path)) ==> r == Err(OSError("No such file or directory"))
    ensures IsDirectory(dirs, Parent(path)) && IsDirectory(dirs, path) ==> r == Err(OSError("Is a directory"))
  {
    if !IsDirectory(dirs, Parent(path)) then Err(OSError("No such file or directory"))
    else if IsDirectory(dirs, path) then Err(OSError("Is a directory"))
    else Ok(path)
  }

  /** `open(path, "wb")` succeeds: the parent is a directory and `path`
      is not. */
  predicate Writable(dirs: set<Path>, path: Path) {
    IsDirectory(dirs, Parent(path)) && !IsDirectory(dirs, path)
  }

  /** `receive_file(path, from, sof)` on a host: when the file opens, it is
      truncated at once and holds what the session wrote, however the
      session ends; otherwise nothing is received or written. */
  function ReceiveInto(env: Env, st: State, files: Files, dirs: set<Path>, path: Path,
                       from: Address, sof: bool, repeats: nat): (o: Outcome)
    requires ValidId(st.packetId)
    ensures ValidId(o.state.packetId)
    ensures !Writable(dirs, path) ==> o == Outcome(Err(OpenForWriting(dirs, path).error), st, files)
    ensures Writable(dirs, path) ==>
              var r := ReceiveFile(env, st, from, sof, repeats);
              o == Outcome(r.result, r.state, files[path := r.written])
  {
    match OpenForWriting(dirs, path)
    case Err(e) => Outcome(Err(e), st, files)
    case Ok(key) =>
      var r := ReceiveFile(env, st, from, sof, repeats);
      Outcome(r.result, r.state, files[key := r.written])
  }

  /** `send_file(path, address)` on a host. */
  function SendFrom(env: Env, st: State, files: Files, dirs: set<Path>, path: Path,
                    address: Address, repeats: nat): (r: Step<()>)
    requires ValidId(st.packetId)
  {
    SendFile(env, st, ReadFile(files, dirs, path), Name(path), address, repeats)
  }

  /** `Server.handle_sof_packet(packet, address)`: acknowledge with a
      literal bit 0, decode and check the name, receive the rest of the file
      into the save directory, then send back the file of that name from
      the working directory. */
  function ServerSession(env: Env, st: State, files: Files, dirs: set<Path>, saveDir: Path,
                         packet: Packet, address: Address, repeats: nat): (o: Outcome)
    requires ValidId(st.packetId)
    ensures ValidId(o.state.packetId)
  {
    var acked := State(st.packetId, SendPacket(st.net, Control(env, 0, ACK), address));
    match Utf8.Decode(packet.data)
    case None => Outcome(Err(ValueError("'utf-8' codec can't decode")), acked, files)
    case Some(filename) =>
      if !CheckFilename(filename) then Outcome(Err(ValueError("Invalid filename")), acked, files)
      else
        var received := ReceiveInto(env, acked, files, dirs, Div(saveDir, Parse(filename)), address, true, repeats);
        if received.result.Err? then received
        else
          var sent := SendFrom(env, received.state, received.files, dirs, Parse(filename), address, repeats);
          Outcome(sent.result, sent.state, received.files)
  }

  /** `Client.send(path)`: send the file to the server, then receive the
      echo into the save directory under the file's name. */
  function ClientSession(env: Env, st: State, files: Files, dirs: set<Path>, saveDir: Path,
                         path: Path, server: Address, repeats: nat): (o: Outcome)
    requires ValidId(st.packetId)
    ensures ValidId(o.state.packetId)
  {
    var sent := SendFrom(env, st, files, dirs, path, server, repeats);
    if sent.result.Err? then Outcome(sent.result, sent.state, files)
    else ReceiveInto(env, sent.state, files, dirs, Div(saveDir, Parse(Name(path))), server, false, repeats)
  }

  // ----- Properties of the two roles -----

  /** Unless it is lost, the server's first transmission is an ACK carrying
      bit 0 whatever bit the SOF it answers carried; and a name that fails to decode or to pass
      the check ends the conversation with `ValueError` and nothing else
      sent or written. */
  lemma ServerAcksWithZero(env: Env, st: State, files: Files, dirs: set<Path>, saveDir: Path,
                           packet: Packet, address: Address, repeats: nat)
    requires ValidId(st.packetId)
    ensures var o := ServerSession(env, st, files, dirs, saveDir, packet, address, repeats);
            && st.net.wire <= o.state.net.wire
            && ((st.net.losses == [] || !st.net.losses[0]) ==>
                  && |o.state.net.wire| > |st.net.wire|
                  && o.state.net.wire[|st.net.wire|] == Datagram(AckFrame(env, 0), address))
            && (!(Utf8.Decode(packet.data).Some? && CheckFilename(Utf8.Decode(packet.data).value)) ==>
                  && o.result.Err? && o.result.error.ValueError?
                  && o.files == files
                  && |o.state.net.wire| <= |st.net.wire| + 1)
  {
    var acked := State(st.packetId, SendPacket(st.net, Control(env, 0, ACK), address));
    var o := ServerSession(env, st, files, dirs, saveDir, packet, address, repeats);
    ServerSessionAfterAck(env, st, files, dirs, saveDir, packet, address, repeats);
    assert st.net.wire <= acked.net.wire;
    if st.net.losses == [] || !st.net.losses[0] {
      assert acked.net.wire == st.net.wire + [Datagram(AckFrame(env, 0), address)];
      assert o.state.net.wire[|st.net.wire|] == acked.net.wire[|st.net.wire|];
    }
  }

  /** After its ACK the server only adds to the wire; a rejected name adds
      nothing more and writes nothing. */
  lemma ServerSessionAfterAck(env: Env, st: State, files: Files, dirs: set<Path>, saveDir: Path,
                              packet: Packet, address: Address, repeats: nat)
    requires ValidId(st.packetId)
    ensures var acked := State(st.packetId, SendPacket(st.net, Control(env, 0, ACK), address));
            var o := ServerSession(env, st, files, dirs, saveDir, packet, address, repeats);
            && acked.net.wire <= o.state.net.wire
            && (!(Utf8.Decode(packet.data).Some? && CheckFilename(Utf8.Decode(packet.data).value)) ==>
                  && o.result.Err? && o.result.error.ValueError?
                  && o.files == files && o.state == acked)
  {
    var acked := State(st.packetId, SendPacket(st.net, Control(env, 0, ACK), address));
    match Utf8.Decode(packet.data)
    case None =>
    case Some(filename) =>
      if CheckFilename(filename) {
        var target := Div(saveDir, Parse(filename));
        var received := ReceiveInto(env, acked, files, dirs, target, address, true, repeats);
        if Writable(dirs, target) {
          ReceiveFileKeepsWire(env, acked, address, true, repeats);
        }
        if received.result.Ok? {
          SendFileKeepsWire(env, received.state, ReadFile(received.files, dirs, Parse(filename)), Name(Parse(filename)), address, repeats);
        }
      }
  }

  /** The path the server writes the upload to and the path it reads the
      echo from are the same `Path` value exactly when the save directory
      is `Path(".")`. Files are keyed by `Path` value, so two different
      values are two different files. */
  lemma UploadTargetDiffers(saveDir: Path, filename: string)
    requires CheckFilename(filename)
    ensures Div(saveDir, Parse(filename)) == Parse(filename) <==> saveDir == Dot
  {
    CheckFilenameHasNoSeparator(filename);
    if filename == "." {
      assert saveDir.parts + [] == saveDir.parts;
    } else {
      DivChild(saveDir, filename);
    }
  }

  /** With a save directory other than `Path(".")`, the file the server
      sends back is the one stored under `Path(filename)`, as it was before
      the conversation, not the upload. */
  lemma ServerEchoesWorkingDirectoryFile(env: Env, st: State, files: Files, dirs: set<Path>, saveDir: Path,
                                         packet: Packet, address: Address, repeats: nat)
    requires ValidId(st.packetId)
    requires Utf8.Decode(packet.data).Some? && CheckFilename(Utf8.Decode(packet.data).value)
    requires saveDir != Dot
    ensures var filename := Utf8.Decode(packet.data).value;
            var acked := State(st.packetId, SendPacket(st.net, Control(env, 0, ACK), address));
            var received := ReceiveInto(env, acked, files, dirs, Div(saveDir, Parse(filename)), address, true, repeats);
            var o := ServerSession(env, st, files, dirs, saveDir, packet, address, repeats);
            received.result.Ok? ==>
              && o.files == received.files
              && var sent := SendFile(env, received.state, ReadFile(files, dirs, Parse(filename)), Name(Parse(filename)), address, repeats);
                 o.result == sent.result && o.state == sent.state
  {
    var filename := Utf8.Decode(packet.data).value;
    UploadTargetDiffers(saveDir, filename);
    var target := Div(saveDir, Parse(filename));
    var acked := State(st.packetId, SendPacket(st.net, Control(env, 0, ACK), address));
    var received := ReceiveInto(env, acked, files, dirs, target, address, true, repeats);
    if received.result.Ok? {
      var upload := ReceiveFile(env, acked, address, true, repeats);
      assert Writable(dirs, target);
      assert received.files == files[target := upload.written];
      assert target != Parse(filename);
      assert ReadFile(received.files, dirs, Parse(filename)) == ReadFile(files, dirs, Parse(filename));
    }
  }

  /** With the working directory as save directory, the server writes the
      upload to the very file it then reads: the echo is the upload. */
  lemma ServerEchoesUpload(env: Env, st: State, files: Files, dirs: set<Path>, saveDir: Path,
                           packet: Packet, address: Address, repeats: nat)
    requires ValidId(st.packetId)
    requires Utf8.Decode(packet.data).Some? && CheckFilename(Utf8.Decode(packet.data).value)
    requires saveDir == Dot
    ensures var filename := Utf8.Decode(packet.data).value;
            var acked := State(st.packetId, SendPacket(st.net, Control(env, 0, ACK), address));
            var received := ReceiveInto(env, acked, files, dirs, Div(saveDir, Parse(filename)), address, true, repeats);
            var o := ServerSession(env, st, files, dirs, saveDir, packet, address, repeats);
            received.result.Ok? ==>
              && o.files == received.files
              && var upload := ReceiveFile(env, acked, address, true, repeats).written;
                 var sent := SendFile(env, received.state, Ok(upload), Name(Parse(filename)), address, repeats);
                 o.result == sent.result && o.state == sent.state
  {
    var filename := Utf8.Decode(packet.data).value;
    UploadTargetDiffers(saveDir, filename);
    var target := Div(saveDir, Parse(filename));
    var acked := State(st.packetId, SendPacket(st.net, Control(env, 0, ACK), address));
    var received := ReceiveInto(env, acked, files, dirs, target, address, true, repeats);
    if received.result.Ok? {
      var upload := ReceiveFile(env, acked, address, true, repeats);
      assert Writable(dirs, target);
      assert received.files == files[target := upload.written];
      assert target == Parse(filename);
      assert ReadFile(received.files, dirs, Parse(filename)) == Ok(upload.written);
    }
  }

  /** A receive never takes back anything already transmitted. */
  lemma {:induction false} ReceiveFileKeepsWire(env: Env, st: State, from: Address, sof: bool, repeats: nat)
    requires ValidId(st.packetId)
    ensures st.net.wire <= ReceiveFile(env, st, from, sof, repeats).state.net.wire
    decreases |st.net.inbox|
  {
    SafeReceiveWire(env, st, repeats);
    var s := SafeReceive(env, st, repeats);
    match ReceiveTurn(env, s, from, sof)
    case Stop(result, last, eof) =>
    case Accept(packet, next) =>
      ReceiveFileKeepsWire(env, next, from, true, repeats);
  }

  /** A send never takes back anything already transmitted. */
  lemma SendFileKeepsWire(env: Env, st: State, file: Result<seq<byte>>, name: string,
                          address: Address, repeats: nat)
    requires ValidId(st.packetId)
    ensures st.net.wire <= SendFile(env, st, file, name, address, repeats).state.net.wire
  {
    if file.Ok? {
      SendPartsKeepWire(env, st, FileParts(name, file.value), address, repeats);
    }
  }

  lemma {:induction false} SendPartsKeepWire(env: Env, st: State, parts: seq<Part>, address: Address, repeats: nat)
    requires ValidId(st.packetId)
    ensures st.net.wire <= SendParts(env, st, parts, address, repeats).state.net.wire
    decreases |parts|
  {
    if parts != [] {
      var s := SendPart(env, st, parts[0], address, repeats);
      match NewPacket(env.hash, st.packetId, parts[0].tag, parts[0].data)
      case Err(e) =>
      case Ok(packet) =>
        SafeSendWire(env, st, packet, address, repeats);
      if s.result.Ok? {
        SendPartsKeepWire(env, s.state, parts[1..], address, repeats);
      }
    }
  }
}
