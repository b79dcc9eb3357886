/** `lab04/proxyserver.py`: a forward proxy. From a browser's request it
    derives the upstream URL (the request path, prefixed by the site named
    in a `Referer` header, given a scheme), fetches it with GET or POST and
    relays the answer as one of three response shapes. The upstream call is
    a parameter: the answer the network gave to the request planned. */
module Proxy {
  import opened Exceptions
  import opened Bytes
  import opened Text
  import Utf8

  // ----- the fixed responses -----

  const BadRequestText := "HTTP/1.1 400 Bad Request\r\n\r\n"
  const NotFoundText := "HTTP/1.1 404 Not Found\r\nContent-Length: 0\r\n\r\n"

  /** `bad_request_response()`: the text is ASCII, so its UTF-8 encoding
      is its character codes. */
  const BadRequestResponse: seq<byte> := Utf8.Ascii(BadRequestText)

  /** `not_found_response()`: an empty body, declared empty. */
  const NotFoundResponse: seq<byte> := Utf8.Ascii(NotFoundText)

  // ----- the 200 response and how a client frames it -----

  const OkPrefix := "HTTP/1.1 200 OK\r\nContent-Length: "

  /** The head of a 200 response declaring a body of `length`. */
  function OkHead(length: nat): string {
    OkPrefix + Decimal(length) + "\r\n\r\n"
  }

  /** `ok_response(content)` as written: the declared length counts the
      content's characters, while the body carries its UTF-8 bytes. */
  function OkResponseAsWritten(content: string): (r: seq<byte>)
    ensures |r| >= |OkHead(|content|)| + |content|
  {
    Utf8.Encode(OkHead(|content|) + content)
  }

  /** `ok_response(content)` declaring the body's length in bytes, which is
      what Content-Length counts (section 3.3.2 of RFC 7230). */
  function OkResponse(content: string): (r: seq<byte>)
    ensures |r| >= |OkHead(|Utf8.Encode(content)|)| + |content|
  {
    Utf8.Encode(OkHead(|Utf8.Encode(content)|) + content)
  }

  predicate IsDigitByte(x: byte) {
    '0' as int <= x <= '9' as int
  }

  /** The end of the run of ASCII digits that starts at `i`. */
  function DigitRun(b: seq<byte>, i: nat): (k: nat)
    requires i <= |b|
    ensures i <= k <= |b| && forall j :: i <= j < k ==> IsDigitByte(b[j])
    ensures k == |b| || !IsDigitByte(b[k])
    decreases |b| - i
  {
    if i < |b| && IsDigitByte(b[i]) then DigitRun(b, i + 1) else i
  }

  /** Bytes read as the characters with the same codes. */
  function Latin1(b: seq<byte>): (s: string)
    ensures |s| == |b| && forall i :: 0 <= i < |b| ==> s[i] as int == b[i]
  {
    seq(|b|, i requires 0 <= i < |b| => b[i] as char)
  }

  const BlankLine: seq<byte> := [13, 10, 13, 10]

  /** How an HTTP client reads a 200 response: the status line and
      `Content-Length: `, then the rest as `ReadFramed` says. */
  function ReadOk(r: seq<byte>): (s: Option<string>)
    ensures s.Some? ==> |Utf8.Ascii(OkPrefix)| + 5 + |Utf8.Encode(s.value)| <= |r|
  {
    var p := Utf8.Ascii(OkPrefix);
    if |r| < |p| || r[..|p|] != p then None else ReadFramed(r[|p|..])
  }

  /** Decimal digits, a blank line, and then exactly as many body bytes as
      the digits say, decoded as UTF-8. */
  function ReadFramed(rest: seq<byte>): (s: Option<string>)
    ensures s.Some? ==> 5 + |Utf8.Encode(s.value)| <= |rest|
  {
    var k := DigitRun(rest, 0);
    if k == 0 || |rest| < k + 4 || rest[k..k + 4] != BlankLine then None
    else
      var n := DigitsValue(Latin1(rest[..k]));
      var body := rest[k + 4..];
      if 0 <= n <= |body| then Utf8.Decode(body[..n]) else None
  }

  /** A client never reads the 400 or the 404 as a 200: their status lines
      differ from the 200's at the first digit of the code. */
  lemma FixedResponsesNotOk()
    ensures ReadOk(BadRequestResponse) == None
    ensures ReadOk(NotFoundResponse) == None
  {
    var p := Utf8.Ascii(OkPrefix);
    assert |BadRequestResponse| < |p|;
    assert OkPrefix[9] == '2' && p[9] == '2' as int;
    assert NotFoundText[9] == '4' && NotFoundResponse[9] == '4' as int;
    assert NotFoundResponse[..|p|][9] != p[9];
  }

  lemma OkPrefixAscii()
    ensures Utf8.IsAscii(OkPrefix)
  {
  }

  /** A client reading a response that starts with `OkHead(n)` decodes the
      next `n` bytes, whatever follows them. */
  lemma ReadHead(n: nat, body: seq<byte>)
    ensures ReadOk(Utf8.Encode(OkHead(n)) + body) == if n <= |body| then Utf8.Decode(body[..n]) else None
  {
    var p := Utf8.Ascii(OkPrefix);
    var tail := Utf8.Ascii(Digits(n)) + BlankLine + body;
    var r := Utf8.Encode(OkHead(n)) + body;
    EncodeOkHead(n);
    assert r == p + tail;
    assert r[..|p|] == p && r[|p|..] == tail;
    ReadDigits(n, body);
  }

  /** `OkHead(n)` is ASCII: the status line, the digits and a blank line. */
  lemma EncodeOkHead(n: nat)
    ensures Utf8.Encode(OkHead(n)) == Utf8.Ascii(OkPrefix) + Utf8.Ascii(Digits(n)) + BlankLine
  {
    var d := Digits(n);
    OkPrefixAscii();
    assert OkHead(n) == OkPrefix + (d + "\r\n\r\n");
    Utf8.EncodeAsciiPrefix(OkPrefix, d + "\r\n\r\n");
    Utf8.EncodeAsciiPrefix(d, "\r\n\r\n");
    EncodeBlankLine();
  }

  lemma EncodeBlankLine()
    ensures Utf8.Encode("\r\n\r\n") == BlankLine
  {
    assert Utf8.Encode("\r\n\r\n") == BlankLine;
  }

  /** The digits of `n`, a blank line and a body frame `n` bytes of it. */
  lemma ReadDigits(n: nat, body: seq<byte>)
    ensures ReadFramed(Utf8.Ascii(Digits(n)) + BlankLine + body) == if n <= |body| then Utf8.Decode(body[..n]) else None
  {
    var d := Digits(n);
    var e := Utf8.Ascii(d);
    var rest := e + BlankLine + body;
    assert !IsDigitByte(rest[|e|]) by {
      assert rest[|e|] == BlankLine[0] == 13;
    }
    assert DigitRun(rest, 0) == |e|;
    assert rest[|e|..|e| + 4] == BlankLine;
    assert Latin1(rest[..|e|]) == d;
    DigitsRoundTrip(n);
    assert rest[|e| + 4..] == body;
  }

  /** The 200 response frames its content exactly: a client reads back the
      content that was sent. */
  lemma OkRoundTrip(content: string)
    ensures ReadOk(OkResponse(content)) == Some(content)
  {
    var b := Utf8.Encode(content);
    Utf8.EncodeAppend(OkHead(|b|), content);
    ReadHead(|b|, b);
    assert b[..|b|] == b;
    Utf8.DecodeEncode(content);
  }

  /** As written, a client reads only as many body bytes as the content has
      characters. */
  lemma AsWrittenReadsShort(content: string)
    ensures ReadOk(OkResponseAsWritten(content)) == Utf8.Decode(Utf8.Encode(content)[..|content|])
  {
    Utf8.EncodeAppend(OkHead(|content|), content);
    ReadHead(|content|, Utf8.Encode(content));
  }

  /** On one character from U+0080 to U+07FF, "é" say, the as-written
      response declares one byte of a two-byte body, and a client cannot
      decode the lone lead byte it reads. */
  lemma AsWrittenMisframes(c: char)
    requires 0x80 <= c as int < 0x800
    ensures ReadOk(OkResponseAsWritten([c])) == None
  {
    AsWrittenReadsShort([c]);
    assert Utf8.Encode([c]) == Utf8.EncodeChar(c) + Utf8.Encode([]);
    assert Utf8.Encode([c])[..1] == [0xC0 + c as int / 0x40];
  }

  /** For ASCII content the two forms are the same bytes. */
  lemma AsciiAgrees(content: string)
    requires Utf8.IsAscii(content)
    ensures OkResponseAsWritten(content) == OkResponse(content)
  {
    Utf8.EncodeAscii(content);
  }

  // ----- deriving the upstream URL -----

  /** What `handle` does with a decoded request: answer it directly, or
      fetch a URL with GET, or with POST and a body. */
  datatype Action =
    | Reply(response: seq<byte>)
    | Get(url: string)
    | Post(url: string, data: string)

  predicate HasScheme(url: string) {
    StartsWith(url, "http://") || StartsWith(url, "https://")
  }

  /** Lines 78-79: `https://` goes in front of a URL with no scheme. */
  function WithScheme(url: string): (r: string)
    ensures HasScheme(r)
    ensures |url| <= |r| && r[|r| - |url|..] == url
    ensures HasScheme(url) ==> r == url
  {
    if HasScheme(url) then url
    else
      var r := "https://" + url;
      assert r[..8] == "https://";
      r
  }

  /** Line 70: the first line holding `Referer:`. */
  function FirstReferer(lines: seq<string>): (r: Option<string>)
    ensures r.Some? ==> r.value in lines && Contains(r.value, "Referer:")
    ensures r.None? ==> forall k :: 0 <= k < |lines| ==> !Contains(lines[k], "Referer:")
  {
    if lines == [] then None
    else if Contains(lines[0], "Referer:") then Some(lines[0])
    else FirstReferer(lines[1..])
  }

  const Trailing: set<char> := {'/', '\r', '\n'}

  /** Lines 72-76: the referring page's path, with the scheme and host
      dropped and trailing `/`, CR and LF stripped; `None` for the
      `IndexError` of a line with no `/` after the scheme. */
  function RefererSite(line: string): (r: Option<string>)
    ensures r.Some? ==> r.value == [] || r.value[|r.value| - 1] !in Trailing
  {
    var i := Find(line, "://");
    var s := if i != -1 then line[i + 3..] else line;
    var j := Find(s, "/");
    if j == -1 then None else Some(RStrip(s[j + 1..], Trailing))
  }

  /** Lines 70-79: the URL to fetch for `path`; `None` when the `Referer`
      line raises. */
  function Target(request: string, path: string): (r: Option<string>)
    ensures r.Some? ==> HasScheme(r.value)
    ensures r.Some? ==> |path| <= |r.value| && r.value[|r.value| - |path|..] == path
    ensures (forall k :: 0 <= k < |Split(request, '\n')| ==> !Contains(Split(request, '\n')[k], "Referer:"))
              ==> r == Some(WithScheme(path))
  {
    match FirstReferer(Split(request, '\n'))
    case None => Some(WithScheme(path))
    case Some(line) =>
      match RefererSite(line)
      case None => None
      case Some(site) =>
        var u := site + "/" + path;
        assert u[|u| - |path|..] == path;
        Some(WithScheme(u))
  }

  /** In a `Referer` line, `://` is first found right after a scheme
      that holds no colon. */
  lemma SchemeEnd(scheme: string, after: string)
    requires ':' !in scheme
    ensures Find("Referer: " + scheme + "://" + after, "://") == 9 + |scheme|
  {
    var line := "Referer: " + scheme + "://" + after;
    var i := 9 + |scheme|;
    assert line[i..i + 3] == "://";
    forall j | 0 <= j < i
      ensures !At(line, "://", j)
    {
      if j < 9 {
        assert line[j] == "Referer: "[j];
        assert line[8] == ' ';
      } else {
        assert line[j] == scheme[j - 9];
      }
    }
    FindFirst(line, "://", i);
  }

  /** The first `/` after a host that holds none is the one that ends it. */
  lemma HostEnd(host: string, after: string)
    requires '/' !in host
    ensures Find(host + "/" + after, "/") == |host|
  {
    var s := host + "/" + after;
    assert s[|host|..|host| + 1] == "/";
    forall j | 0 <= j < |host|
      ensures !At(s, "/", j)
    {
      assert s[j] == host[j];
    }
    FindFirst(s, "/", |host|);
  }

  /** A `Referer` of the usual shape names the site right after the host:
      the page at `host/site/` refers to `path` on `site`. */
  lemma RefererTarget(request: string, path: string, scheme: string, host: string, site: string, tail: string)
    requires ':' !in scheme && '/' !in host
    requires site == [] || site[|site| - 1] !in Trailing
    requires forall i :: 0 <= i < |tail| ==> tail[i] in Trailing
    requires FirstReferer(Split(request, '\n')) == Some("Referer: " + scheme + "://" + (host + "/" + (site + tail)))
    ensures Target(request, path) == Some(WithScheme(site + "/" + path))
  {
    var after := host + "/" + (site + tail);
    var line := "Referer: " + scheme + "://" + after;
    SchemeEnd(scheme, after);
    assert line[9 + |scheme| + 3..] == after;
    HostEnd(host, site + tail);
    assert after[|host| + 1..] == site + tail;
    RStripTail(site, tail, Trailing);
    assert RefererSite(line) == Some(site);
  }

  /** `handle`, lines 59-92, on the decoded request: the three fields of the
      request line, the blacklist, the target URL and the method. */
  function Plan(request: string, blacklist: set<string>): (a: Action)
    ensures var f := Split(request, ' ');
      |f| < 3 || f[1] == [] || f[1][0] != '/' ==> a == Reply(BadRequestResponse)
    ensures var f := Split(request, ' ');
      |f| >= 3 && f[1] != [] && f[1][0] == '/' && f[1][1..] in blacklist ==>
        a == Reply(OkResponse(f[1][1..] + " is in the blacklist"))
    ensures var f := Split(request, ' ');
      |f| >= 3 && f[0] != "GET" && f[0] != "POST" && (f[1] == [] || f[1][1..] !in blacklist) ==>
        a == Reply(BadRequestResponse)
    ensures a.Get? ==>
      var f := Split(request, ' ');
      |f| >= 3 && f[0] == "GET" && Target(request, f[1][1..]) == Some(a.url) && HasScheme(a.url)
    ensures a.Post? ==>
      var f := Split(request, ' ');
      var i := Find(request, "\r\n\r\n");
      && |f| >= 3 && f[0] == "POST" && Target(request, f[1][1..]) == Some(a.url) && HasScheme(a.url)
      && 0 <= i && a.data == request[i + 4..]
  {
    var fields := Split(request, ' ');
    if |fields| < 3 then Reply(BadRequestResponse)
    else
      var verb := fields[0];
      var url := fields[1];
      if url == [] || url[0] != '/' then Reply(BadRequestResponse)
      else
        var path := url[1..];
        if path in blacklist then Reply(OkResponse(path + " is in the blacklist"))
        else match Target(request, path)
          case None => Reply(BadRequestResponse)
          case Some(target) =>
            if verb == "GET" then Get(target)
            else if verb == "POST" then PostTo(request, target)
            else Reply(BadRequestResponse)
  }

  /** The POST branch: the body is what follows the first blank line, and
      a request without one is a bad request. */
  function PostTo(request: string, target: string): (a: Action)
    ensures var i := Find(request, "\r\n\r\n");
      if i == -1 then a == Reply(BadRequestResponse) else a == Post(target, request[i + 4..])
  {
    var i := Find(request, "\r\n\r\n");
    if i == -1 then Reply(BadRequestResponse) else Post(target, request[i + 4..])
  }

  /** A plain GET of a path not in the blacklist, with no `Referer`, fetches
      that path over https unless it already names a scheme. */
  lemma PlanGet(path: string, version: string, blacklist: set<string>)
    requires ' ' !in path && path !in blacklist
    requires var request := "GET /" + path + " " + version;
      forall k :: 0 <= k < |Split(request, '\n')| ==> !Contains(Split(request, '\n')[k], "Referer:")
    ensures Plan("GET /" + path + " " + version, blacklist) == Get(WithScheme(path))
  {
    var request := "GET /" + path + " " + version;
    var url := "/" + path;
    assert ' ' !in url;
    assert request == "GET" + [' '] + (url + [' '] + version);
    SplitCons("GET", url + [' '] + version, ' ');
    SplitCons(url, version, ' ');
    assert Split(request, ' ') == ["GET", url] + Split(version, ' ');
    assert url[1..] == path;
  }

  // ----- relaying the answer -----

  /** What the upstream request gave: an exception (bad URL, no
      connection), or a status and the body's bytes. */
  datatype Upstream = Unreachable | Answer(status: int, content: seq<byte>)

  /** Lines 94-102: 404 becomes the fixed 404, anything else a 200 carrying
      the decoded body; an exception or an undecodable body becomes 400. */
  function Relay(u: Upstream): (r: seq<byte>)
    ensures u.Unreachable? ==> r == BadRequestResponse
    ensures u.Answer? && u.status == 404 ==> r == NotFoundResponse
    ensures u.Answer? && u.status != 404 && Utf8.Decode(u.content).Some? ==>
              ReadOk(r) == Utf8.Decode(u.content)
    ensures u.Answer? && u.status != 404 && Utf8.Decode(u.content).None? ==> r == BadRequestResponse
  {
    match u
    case Unreachable => BadRequestResponse
    case Answer(status, content) =>
      if status == 404 then NotFoundResponse
      else match Utf8.Decode(content)
        case None => BadRequestResponse
        case Some(text) =>
          OkRoundTrip(text);
          OkResponse(text)
  }

  /** Lines 94-102 as written: the 200 reply is `ok_response(text)`, whose
      `Content-Length` counts characters. It is the corrected relay except
      for a page with a non-ASCII character, and a client reads an ASCII
      page back unchanged. */
  function RelayAsWritten(u: Upstream): (r: seq<byte>)
    ensures u.Answer? && u.status != 404 && Utf8.Decode(u.content).Some? ==>
              r == OkResponseAsWritten(Utf8.Decode(u.content).value)
    ensures !(u.Answer? && u.status != 404 && Utf8.Decode(u.content).Some? && !Utf8.IsAscii(Utf8.Decode(u.content).value)) ==>
              r == Relay(u)
    ensures u.Answer? && u.status != 404 && Utf8.Decode(u.content).Some? && Utf8.IsAscii(Utf8.Decode(u.content).value) ==>
              ReadOk(r) == Utf8.Decode(u.content)
  {
    match u
    case Unreachable => BadRequestResponse
    case Answer(status, content) =>
      if status == 404 then NotFoundResponse
      else match Utf8.Decode(content)
        case None => BadRequestResponse
        case Some(text) =>
          assert Utf8.IsAscii(text) ==> OkResponseAsWritten(text) == OkResponse(text) by {
            if Utf8.IsAscii(text) {
              AsciiAgrees(text);
            }
          }
          OkRoundTrip(text);
          OkResponseAsWritten(text)
  }

  /** As written, a page that is one character from U+0080 to U+07FF comes
      through the proxy in a form no client can read. */
  lemma RelayAsWrittenMisframes(status: int, c: char)
    requires status != 404 && 0x80 <= c as int < 0x800
    ensures ReadOk(RelayAsWritten(Answer(status, Utf8.Encode([c])))) == None
  {
    Utf8.DecodeEncode([c]);
    AsWrittenMisframes(c);
  }

  /** `handle` whole: the request bytes (a decoding failure is a 400), the
      plan, and, when the plan fetches, the upstream's answer relayed. */
  function Handle(request: seq<byte>, blacklist: set<string>, upstream: Upstream): (r: seq<byte>)
    ensures Utf8.Decode(request).None? ==> r == BadRequestResponse
    ensures Utf8.Decode(request).Some? && Plan(Utf8.Decode(request).value, blacklist).Reply? ==>
              r == Plan(Utf8.Decode(request).value, blacklist).response
  {
    match Utf8.Decode(request)
    case None => BadRequestResponse
    case Some(text) =>
      match Plan(text, blacklist)
      case Reply(response) => response
      case _ => Relay(upstream)
  }

  /** A fetched page reaches the browser unchanged: whatever it fetches,
      a client reads the upstream's text back out of the proxy's answer. */
  lemma ForwardsContent(request: seq<byte>, blacklist: set<string>, status: int, content: seq<byte>)
    requires Utf8.Decode(request).Some? && !Plan(Utf8.Decode(request).value, blacklist).Reply?
    requires status != 404 && Utf8.Decode(content).Some?
    ensures ReadOk(Handle(request, blacklist, Answer(status, content))) == Utf8.Decode(content)
  {
  }
}
