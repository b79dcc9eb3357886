/** UTF-8, as Python's `str.encode('utf-8')` and strict `bytes.decode('utf-8')`
    apply it to file names. */
module Utf8 {
  import opened Bytes
  import opened Exceptions

  /** The encoding of one Unicode scalar value. */
  function EncodeChar(c: char): (b: seq<byte>)
    ensures 1 <= |b| <= 4
    ensures (|b| == 1) <==> (c as int < 0x80)
  {
    var n := c as int;
    if n < 0x80 then [n]
    else if n < 0x800 then [0xC0 + n / 0x40, 0x80 + n % 0x40]
    else if n < 0x1_0000 then [0xE0 + n / 0x1000, 0x80 + (n / 0x40) % 0x40, 0x80 + n % 0x40]
    else [0xF0 + n / 0x4_0000, 0x80 + (n / 0x1000) % 0x40, 0x80 + (n / 0x40) % 0x40, 0x80 + n % 0x40]
  }

  /** `str.encode('utf-8')`. */
  function Encode(s: string): (b: seq<byte>)
    ensures |b| >= |s|
  {
    if s == [] then [] else EncodeChar(s[0]) + Encode(s[1..])
  }

  predicate Continuation(x: byte) {
    0x80 <= x < 0xC0
  }

  predicate IsScalar(v: int) {
    0 <= v < 0xD800 || 0xE000 <= v < 0x11_0000
  }

  /** Decodes the first character of `b` and says how many bytes it took;
      `None` for what the strict decoder rejects (stray continuation bytes,
      overlong forms, surrogates, values above U+10FFFF, truncation). */
  function DecodeChar(b: seq<byte>): (r: Option<(char, nat)>)
    ensures r.Some? ==> 1 <= r.value.1 <= |b| && r.value.1 <= 4
    ensures r.Some? ==> EncodeChar(r.value.0) == b[..r.value.1]
  {
    if b == [] then None
    else
      var b0 := b[0] as int;
      if b0 < 0x80 then
        assert b[..1] == [b[0]];
        Some((b0 as char, 1))
      else if 0xC2 <= b0 < 0xE0 then
        if |b| >= 2 && Continuation(b[1]) then
          EncodeTwoOf(b);
          Some((((b0 - 0xC0) * 0x40 + (b[1] as int - 0x80)) as char, 2))
        else None
      else if 0xE0 <= b0 < 0xF0 then
        if |b| >= 3 && Continuation(b[1]) && Continuation(b[2]) then
          var v := (b0 - 0xE0) * 0x1000 + (b[1] as int - 0x80) * 0x40 + (b[2] as int - 0x80);
          if 0x800 <= v && IsScalar(v) then
            EncodeThreeOf(b);
            Some((v as char, 3))
          else None
        else None
      else if 0xF0 <= b0 < 0xF5 then
        if |b| >= 4 && Continuation(b[1]) && Continuation(b[2]) && Continuation(b[3]) then
          var v := (b0 - 0xF0) * 0x4_0000 + (b[1] as int - 0x80) * 0x1000 + (b[2] as int - 0x80) * 0x40 + (b[3] as int - 0x80);
          if 0x1_0000 <= v && IsScalar(v) then
            EncodeFourOf(b);
            Some((v as char, 4))
          else None
        else None
      else None
  }

  /** `bytes.decode('utf-8')`; `None` stands for `UnicodeDecodeError`. */
  function Decode(b: seq<byte>): (r: Option<string>)
    ensures r.Some? ==> Encode(r.value) == b
    decreases |b|
  {
    if b == [] then Some([])
    else match DecodeChar(b)
      case None => None
      case Some((c, k)) =>
        match Decode(b[k..])
        case None => None
        case Some(rest) =>
          EncodeCons(b, c, k, rest);
          Some([c] + rest)
  }

  /** A character encoded by the first `k` bytes, followed by text encoded
      by the rest, is encoded by all of them. */
  lemma EncodeCons(b: seq<byte>, c: char, k: nat, rest: string)
    requires k <= |b| && EncodeChar(c) == b[..k] && Encode(rest) == b[k..]
    ensures Encode([c] + rest) == b
  {
    assert ([c] + rest)[1..] == rest;
    assert b[..k] + b[k..] == b;
  }

  /** The two-byte form carries six bits per byte after the lead's five,
      and the character it spells is encoded by exactly those bytes. */
  lemma EncodeTwoOf(b: seq<byte>)
    requires |b| >= 2 && 0xC2 <= b[0] < 0xE0 && Continuation(b[1])
    ensures EncodeChar((((b[0] as int - 0xC0) * 0x40 + (b[1] as int - 0x80)) as char)) == b[..2]
  {
    var hi, lo := b[0] as int - 0xC0, b[1] as int - 0x80;
    var n := hi * 0x40 + lo;
    assert n / 0x40 == hi && n % 0x40 == lo;
    assert b[..2] == [b[0], b[1]];
  }

  lemma EncodeThreeOf(b: seq<byte>)
    requires |b| >= 3 && 0xE0 <= b[0] < 0xF0 && Continuation(b[1]) && Continuation(b[2])
    requires var v := (b[0] as int - 0xE0) * 0x1000 + (b[1] as int - 0x80) * 0x40 + (b[2] as int - 0x80);
      0x800 <= v && IsScalar(v)
    ensures EncodeChar((((b[0] as int - 0xE0) * 0x1000 + (b[1] as int - 0x80) * 0x40 + (b[2] as int - 0x80)) as char)) == b[..3]
  {
    var hi, mid, lo := b[0] as int - 0xE0, b[1] as int - 0x80, b[2] as int - 0x80;
    var n := hi * 0x1000 + mid * 0x40 + lo;
    assert n / 0x40 == hi * 0x40 + mid && n % 0x40 == lo;
    assert (hi * 0x40 + mid) / 0x40 == hi && (hi * 0x40 + mid) % 0x40 == mid;
    assert n / 0x1000 == hi;
    assert b[..3] == [b[0], b[1], b[2]];
  }

  lemma EncodeFourOf(b: seq<byte>)
    requires |b| >= 4 && 0xF0 <= b[0] < 0xF5 && Continuation(b[1]) && Continuation(b[2]) && Continuation(b[3])
    requires var v := (b[0] as int - 0xF0) * 0x4_0000 + (b[1] as int - 0x80) * 0x1000 + (b[2] as int - 0x80) * 0x40 + (b[3] as int - 0x80);
      0x1_0000 <= v && IsScalar(v)
    ensures EncodeChar((((b[0] as int - 0xF0) * 0x4_0000 + (b[1] as int - 0x80) * 0x1000 + (b[2] as int - 0x80) * 0x40 + (b[3] as int - 0x80)) as char)) == b[..4]
  {
    var hi, m1, m2, lo := b[0] as int - 0xF0, b[1] as int - 0x80, b[2] as int - 0x80, b[3] as int - 0x80;
    var n := hi * 0x4_0000 + m1 * 0x1000 + m2 * 0x40 + lo;
    var q := hi * 0x1000 + m1 * 0x40 + m2;
    assert n == q * 0x40 + lo;
    assert n / 0x40 == q && n % 0x40 == lo;
    assert q / 0x40 == hi * 0x40 + m1 && q % 0x40 == m2;
    assert (hi * 0x40 + m1) / 0x40 == hi && (hi * 0x40 + m1) % 0x40 == m1;
    assert n / 0x1000 == hi * 0x40 + m1;
    assert n / 0x4_0000 == hi;
    assert b[..4] == [b[0], b[1], b[2], b[3]];
  }

  lemma DecodeEncodeChar(c: char, rest: seq<byte>)
    ensures DecodeChar(EncodeChar(c) + rest) == Some((c, |EncodeChar(c)|))
  {
    var n := c as int;
    if n < 0x80 {
    } else if n < 0x800 {
      DecodeEncodeTwo(c, rest);
    } else if n < 0x1_0000 {
      DecodeEncodeThree(c, rest);
    } else {
      DecodeEncodeFour(c, rest);
    }
  }

  lemma DecodeEncodeTwo(c: char, rest: seq<byte>)
    requires 0x80 <= c as int < 0x800
    ensures DecodeChar(EncodeChar(c) + rest) == Some((c, 2))
  {
    var n := c as int;
    assert (n / 0x40) * 0x40 + n % 0x40 == n;
  }

  lemma DecodeEncodeThree(c: char, rest: seq<byte>)
    requires 0x800 <= c as int < 0x1_0000
    ensures DecodeChar(EncodeChar(c) + rest) == Some((c, 3))
  {
    var n := c as int;
    assert (n / 0x1000) * 0x40 + (n / 0x40) % 0x40 == n / 0x40;
    assert (n / 0x40) * 0x40 + n % 0x40 == n;
    assert (n / 0x1000) * 0x1000 + ((n / 0x40) % 0x40) * 0x40 + n % 0x40 == n;
  }

  lemma DecodeEncodeFour(c: char, rest: seq<byte>)
    requires 0x1_0000 <= c as int
    ensures DecodeChar(EncodeChar(c) + rest) == Some((c, 4))
  {
    var n := c as int;
    assert (n / 0x4_0000) * 0x40 + (n / 0x1000) % 0x40 == n / 0x1000;
    assert (n / 0x1000) * 0x40 + (n / 0x40) % 0x40 == n / 0x40;
    assert (n / 0x40) * 0x40 + n % 0x40 == n;
    assert (n / 0x4_0000) * 0x4_0000 + ((n / 0x1000) % 0x40) * 0x1000 + ((n / 0x40) % 0x40) * 0x40 + n % 0x40 == n;
  }

  /** Decoding undoes encoding. */
  lemma {:induction false} DecodeEncode(s: string)
    ensures Decode(Encode(s)) == Some(s)
  {
    if s != [] {
      var head := EncodeChar(s[0]);
      var tail := Encode(s[1..]);
      DecodeEncodeChar(s[0], tail);
      assert (head + tail)[|head|..] == tail;
      DecodeEncode(s[1..]);
      assert [s[0]] + s[1..] == s;
    }
  }

  /** Characters below U+0080 encode as themselves, one byte each. */
  lemma {:induction false} EncodeAscii(s: string)
    requires forall i :: 0 <= i < |s| ==> s[i] as int < 0x80
    ensures |Encode(s)| == |s|
    ensures forall i :: 0 <= i < |s| ==> Encode(s)[i] == s[i] as int
  {
    if s != [] {
      EncodeAscii(s[1..]);
    }
  }

  /** Encoding works character by character, so it distributes over `+`. */
  lemma {:induction false} EncodeAppend(a: string, b: string)
    ensures Encode(a + b) == Encode(a) + Encode(b)
    decreases |a|
  {
    if a != [] {
      assert (a + b)[0] == a[0] && (a + b)[1..] == a[1..] + b;
      calc {
        Encode(a + b);
        EncodeChar(a[0]) + Encode(a[1..] + b);
        { EncodeAppend(a[1..], b); }
        EncodeChar(a[0]) + (Encode(a[1..]) + Encode(b));
        Encode(a) + Encode(b);
      }
    } else {
      assert a + b == b;
    }
  }

  predicate IsAscii(s: string) {
    forall i :: 0 <= i < |s| ==> s[i] as int < 0x80
  }

  /** One byte per character, its code modulo 256: on ASCII text, its
      UTF-8 encoding (`EncodeAsciiPrefix`). */
  function Ascii(s: string): (b: seq<byte>)
    ensures |b| == |s| && forall i :: 0 <= i < |s| ==> b[i] == s[i] as int % 0x100
  {
    seq(|s|, i requires 0 <= i < |s| => s[i] as int % 0x100)
  }

  /** An ASCII head encodes byte for byte, whatever follows it. */
  lemma EncodeAsciiPrefix(p: string, rest: string)
    requires IsAscii(p)
    ensures Encode(p + rest) == Ascii(p) + Encode(rest)
  {
    EncodeAppend(p, rest);
    EncodeAscii(p);
  }
}
