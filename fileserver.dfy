/** `lab03/server/server.py`: a one-request HTTP/1.0 file server. It reads
    the request, takes the Request-URI of the request line (section 5.1 of
    RFC 1945) as a path under the working directory, and answers with the
    file's bytes or a 404 text. The working directory is a parameter: the
    regular files under it, keyed by their normalised relative path. */
module FileServer {
  import opened Exceptions
  import opened Bytes
  import opened Text
  import Paths
  import Utf8

  // ----- the request line -----

  /** `request.split('\r\n')[0]`: the text before the first CRLF. */
  function FirstLine(request: string): (r: string)
    ensures |r| <= |request| && r == request[..|r|]
    ensures forall j :: 0 <= j < |r| ==> !At(request, "\r\n", j)
    ensures |r| == |request| || At(request, "\r\n", |r|)
  {
    var i := Find(request, "\r\n");
    if i == -1 then request else request[..i]
  }

  /** `extract_filename_from_request`, as the string given to `Path`: the
      second space-separated field of the first line behind a `.`; a line
      with no space has no second field and raises `IndexError`. */
  function ExtractFilename(request: string): (r: Result<string>)
    ensures r.Err? <==> ' ' !in FirstLine(request)
    ensures r.Err? ==> r.error.IndexError?
    ensures r.Ok? ==> |r.value| >= 1 && r.value[0] == '.' && ' ' !in r.value
  {
    var fields := Split(FirstLine(request), ' ');
    SplitSingle(FirstLine(request), ' ');
    SplitPiecesFree(FirstLine(request), ' ');
    if |fields| < 2 then Err(IndexError("list index out of range"))
    else Ok("." + fields[1])
  }

  /** Only the first line counts: whatever follows the first CRLF leaves
      the file name alone. */
  lemma FirstLineOnly(line: string, rest: string)
    requires '\r' !in line
    ensures ExtractFilename(line + "\r\n" + rest) == ExtractFilename(line)
  {
    var s := line + "\r\n" + rest;
    assert s[|line|..|line| + 2] == "\r\n";
    forall j | 0 <= j < |line|
      ensures !At(s, "\r\n", j)
    {
      assert s[j] == line[j];
    }
    FindFirst(s, "\r\n", |line|);
    assert s[..|line|] == line;
    WholeLine(line);
  }

  /** A line with no CR is its own first line. */
  lemma WholeLine(line: string)
    requires '\r' !in line
    ensures FirstLine(line) == line
  {
    forall j | 0 <= j < |line|
      ensures !At(line, "\r\n", j)
    {
      assert line[j] in line;
    }
  }

  /** The Request-URI of a request line comes back behind a `.`, so
      `/a.txt` names `./a.txt`. */
  lemma RequestLineTarget(verb: string, target: string, version: string)
    requires ' ' !in verb && ' ' !in target
    requires '\r' !in verb + target + version
    ensures ExtractFilename(verb + " " + target + " " + version) == Ok("." + target)
  {
    var line := verb + " " + target + " " + version;
    assert line == verb + [' '] + (target + [' '] + version);
    SplitCons(verb, target + [' '] + version, ' ');
    SplitCons(target, version, ' ');
    assert Split(line, ' ')[1] == target;
    assert ' ' in line by {
      assert line[|verb|] == ' ';
    }
    assert '\r' !in line by {
      assert forall c :: c in line ==> c in verb + target + version || c == ' ';
    }
    WholeLine(line);
  }

  // ----- the response -----

  const OkHeader := "HTTP/1.0 200 OK\r\n\r\n"
  const NotFoundHeader := "HTTP/1.0 404 NOT FOUND\r\n\r\n"

  /** What `recv(1024)` hands over: at most the first 1024 bytes. */
  function Received(stream: seq<byte>): (r: seq<byte>)
    ensures |r| <= 1024 && |r| <= |stream| && r == stream[..|r|]
    ensures |stream| <= 1024 ==> r == stream
  {
    if |stream| <= 1024 then stream else stream[..1024]
  }

  /** Lines 48-49: the path the request names, or the exception raised on
      the way (`UnicodeDecodeError` is a `ValueError`). */
  function Requested(stream: seq<byte>): (r: Result<string>)
    ensures Utf8.Decode(Received(stream)).None? ==> r == Err(ValueError("UnicodeDecodeError"))
    ensures Utf8.Decode(Received(stream)).Some? ==> (r.Err? <==> ' ' !in FirstLine(Utf8.Decode(Received(stream)).value))
    ensures r.Err? ==> r.error.ValueError? || r.error.IndexError?
    ensures r.Ok? ==> Paths.Norm(r.value) == r.value
  {
    match Utf8.Decode(Received(stream))
    case None => Err(ValueError("UnicodeDecodeError"))
    case Some(request) =>
      match ExtractFilename(request)
      case Err(e) => Err(e)
      case Ok(name) =>
        Paths.NormIdempotent(name);
        Ok(Paths.Norm(name))
  }

  /** How a client reads the answer: the 200 header, then the file. */
  function Served(response: seq<byte>): Option<seq<byte>> {
    var h := Utf8.Ascii(OkHeader);
    if |h| <= |response| && response[..|h|] == h then Some(response[|h|..]) else None
  }

  /** `handle_client`, lines 47-62: the file's bytes behind the 200 header,
      or the 404 text naming the path; an exception sends nothing. */
  function HandleClient(stream: seq<byte>, files: map<string, seq<byte>>): (r: Result<seq<byte>>)
    ensures r.Err? <==> Requested(stream).Err?
    ensures r.Ok? ==> Served(r.value) == if Requested(stream).value in files then Some(files[Requested(stream).value]) else None
    ensures r.Ok? && Requested(stream).value !in files ==>
      r.value == Utf8.Encode(NotFoundHeader + " file " + Requested(stream).value + " not found")
  {
    match Requested(stream)
    case Err(e) => Err(e)
    case Ok(path) =>
      if path in files then
        var h := Utf8.Ascii(OkHeader);
        assert (h + files[path])[..|h|] == h && (h + files[path])[|h|..] == files[path];
        Ok(h + files[path])
      else
        NotFoundNotServed(path);
        Ok(Utf8.Encode(NotFoundHeader + " file " + path + " not found"))
  }

  lemma NotFoundHeaderAscii()
    ensures Utf8.IsAscii(NotFoundHeader)
  {
  }

  /** A client never takes the 404 answer for a file: the status codes
      differ at their first digit. */
  lemma NotFoundNotServed(path: string)
    ensures Served(Utf8.Encode(NotFoundHeader + " file " + path + " not found")) == None
  {
    NotFoundHeaderAscii();
    assert NotFoundHeader + " file " + path + " not found" == NotFoundHeader + (" file " + path + " not found");
    Utf8.EncodeAsciiPrefix(NotFoundHeader, " file " + path + " not found");
    var r := Utf8.Encode(NotFoundHeader + " file " + path + " not found");
    var h := Utf8.Ascii(OkHeader);
    assert OkHeader[9] == '2' && h[9] == '2' as int;
    assert NotFoundHeader[9] == '4' && r[9] == '4' as int;
    assert r[..|h|][9] != h[9];
  }

  /** Bytes past the first 1024 are never read. */
  lemma OnlyFirstKilobyte(stream: seq<byte>, more: seq<byte>, files: map<string, seq<byte>>)
    requires |stream| >= 1024
    ensures HandleClient(stream + more, files) == HandleClient(stream, files)
  {
    assert (stream + more)[..1024] == stream[..1024];
  }
}
