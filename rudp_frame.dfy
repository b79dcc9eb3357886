/** The frame of the reliable-UDP file transfer: a 6-byte header
    (identifier, tag, 32-bit checksum, big-endian) followed by at most
    58 payload bytes. */
module RudpFrame {
  import opened Bytes
  import opened Exceptions

  /** The tags of `Packet.Tags`. */
  const ACK: int := 1
  const SOF: int := 2
  const EOF: int := 3
  const DATA: int := 4
  const ERROR: int := 5

  const HeaderSize: nat := 6
  const MaxSize: nat := 64
  const MaxDataSize: nat := MaxSize - HeaderSize

  /** `Tags.valid_values()`, i.e. `range(1, 6)`. */
  predicate ValidTag(tag: int) {
    1 <= tag < 6
  }

  /** The per-process string hash the checksum is derived from; it is an
      arbitrary function, possibly negative. */
  type Hash = seq<byte> -> int

  datatype Header = Header(identifier: int, tag: int, checksum: int)

  datatype Packet = Packet(header: Header, data: seq<byte>)

  /** The `checksum` property: the hash masked to 32 bits. Python's
      `& 0xFFFF_FFFF` on a negative number keeps the low 32 bits of its
      two's complement, which is the Euclidean remainder. */
  function Checksum(hash: Hash, data: seq<byte>): (c: nat)
    ensures c < TwoTo32
    ensures (hash(data) - c) % TwoTo32 == 0
  {
    hash(data) % TwoTo32
  }

  /** What every packet built by the constructor satisfies. */
  predicate Constructed(hash: Hash, p: Packet) {
    && |p.data| <= MaxDataSize
    && (p.header.identifier == 0 || p.header.identifier == 1)
    && ValidTag(p.header.tag)
    && p.header.checksum == Checksum(hash, p.data)
  }

  /** `Packet.__init__`: validates its arguments in this order and stores
      the checksum of the payload in the header. */
  function NewPacket(hash: Hash, identifier: int, tag: int, data: seq<byte>): (r: Result<Packet>)
    ensures r.Ok? <==> |data| <= MaxDataSize && (identifier == 0 || identifier == 1) && ValidTag(tag)
    ensures r.Ok? ==> Constructed(hash, r.value)
    ensures r.Ok? ==> r.value.header.identifier == identifier && r.value.header.tag == tag && r.value.data == data
    ensures r.Err? ==> r.error.ValueError?
  {
    if |data| > MaxDataSize then Err(ValueError("data is larger than max data size"))
    else if identifier != 0 && identifier != 1 then Err(ValueError("identifier should be 0 or 1"))
    else if !ValidTag(tag) then Err(ValueError("unsupported tag"))
    else Ok(Packet(Header(identifier, tag, Checksum(hash, data)), data))
  }

  /** `check_checksum`: compares with `!=`, so it is True exactly when
      the stored checksum is wrong. Nothing calls it. */
  predicate CheckChecksum(hash: Hash, p: Packet)
    ensures Constructed(hash, p) ==> !CheckChecksum(hash, p)
  {
    p.header.checksum != Checksum(hash, p.data)
  }

  /** The header fields fit the `!BBI` layout. */
  predicate Packable(h: Header) {
    0 <= h.identifier < 256 && 0 <= h.tag < 256 && 0 <= h.checksum < TwoTo32
  }

  /** `Header.to_bytes`: `struct.pack("!BBI", ...)`, which raises unless the
      fields fit. */
  function HeaderToBytes(h: Header): (b: seq<byte>)
    requires Packable(h)
    ensures |b| == HeaderSize
    ensures b[0] == h.identifier && b[1] == h.tag
    ensures FromBigEndian32(b[2..6]) == h.checksum
  {
    [h.identifier, h.tag] + BigEndian32(h.checksum)
  }

  /** `Header.from_bytes`: `struct.unpack("!BBI", ...)` of exactly six bytes. */
  function HeaderFromBytes(b: seq<byte>): (h: Header)
    requires |b| == HeaderSize
    ensures Packable(h)
    ensures h.identifier == b[0] && h.tag == b[1]
  {
    Header(b[0], b[1], FromBigEndian32(b[2..6]))
  }

  lemma HeaderRoundTrip(h: Header)
    requires Packable(h)
    ensures HeaderFromBytes(HeaderToBytes(h)) == h
  {
    assert HeaderToBytes(h)[2..6] == BigEndian32(h.checksum);
  }

  /** `Packet.to_bytes`: the header followed by the payload; the source
      asserts the result fits in one frame. */
  function ToBytes(p: Packet): (b: seq<byte>)
    requires Packable(p.header) && |p.data| <= MaxDataSize
    ensures |b| == HeaderSize + |p.data| <= MaxSize
    ensures b[..HeaderSize] == HeaderToBytes(p.header) && b[HeaderSize..] == p.data
  {
    HeaderToBytes(p.header) + p.data
  }

  /** `Packet.from_bytes`: checks the length, unpacks the header and rebuilds
      the packet through the constructor, so the checksum is recomputed from
      the payload and the received one is dropped. */
  function FromBytes(hash: Hash, b: seq<byte>): (r: Result<Packet>)
    ensures r.Ok? <==> HeaderSize <= |b| <= MaxSize && (b[0] == 0 || b[0] == 1) && ValidTag(b[1])
    ensures r.Ok? ==> Constructed(hash, r.value)
    ensures r.Ok? ==> r.value.header.identifier == b[0] && r.value.header.tag == b[1]
                      && r.value.data == b[HeaderSize..]
    ensures r.Err? ==> r.error.ValueError?
  {
    if |b| > MaxSize then Err(ValueError("data length is larger than max data size"))
    else if |b| < HeaderSize then Err(ValueError("data length is less than header size"))
    else
      var header := HeaderFromBytes(b[..HeaderSize]);
      NewPacket(hash, header.identifier, header.tag, b[HeaderSize..])
  }

  /** Decoding an encoded packet gives the packet back. */
  lemma {:induction false} FromBytesToBytes(hash: Hash, p: Packet)
    requires Constructed(hash, p)
    ensures FromBytes(hash, ToBytes(p)) == Ok(p)
  {
    var b := ToBytes(p);
    assert b[..HeaderSize] == HeaderToBytes(p.header);
    HeaderRoundTrip(p.header);
  }

  /** Encoding a decoded frame gives back the frame with its checksum
      bytes replaced by the recomputed checksum. */
  lemma {:induction false} ToBytesFromBytes(hash: Hash, b: seq<byte>)
    requires FromBytes(hash, b).Ok?
    ensures ToBytes(FromBytes(hash, b).value) == b[..2] + BigEndian32(Checksum(hash, b[HeaderSize..])) + b[HeaderSize..]
  {
  }

  /** The four checksum bytes of a frame never influence what it decodes to. */
  lemma {:induction false} FromBytesIgnoresWireChecksum(hash: Hash, b: seq<byte>, c: seq<byte>)
    requires HeaderSize <= |b| && |c| == 4
    ensures FromBytes(hash, b[..2] + c + b[HeaderSize..]) == FromBytes(hash, b)
  {
    var b' := b[..2] + c + b[HeaderSize..];
    assert b'[0] == b[0] && b'[1] == b[1] && b'[HeaderSize..] == b[HeaderSize..];
  }
}
