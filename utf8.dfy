/**
 * UTF-8 as Python's strict `bytes.decode('utf-8')` reads it: exactly the
 * well-formed byte sequences of table 3-7 of the Unicode Standard (no
 * overlong forms, no surrogates, nothing above U+10FFFF). The encoder is the
 * reference partner of the decoder.
 */
module Utf8 {
  import opened Wrappers
  import opened Base64

  predicate IsCont(x: byte)
  {
    0x80 <= x < 0xC0
  }

  /** The first character of `b` and the number of bytes it takes, or None if `b` does not start with a well-formed sequence. */
  function DecodeFirst(b: seq<byte>): (r: Option<(char, nat)>)
    requires b != []
    ensures r.Some? ==> 1 <= r.value.1 <= 4 && r.value.1 <= |b|
  {
    var b0: int := b[0];
    var b1: int := if |b| > 1 then b[1] else 0;
    var b2: int := if |b| > 2 then b[2] else 0;
    var b3: int := if |b| > 3 then b[3] else 0;
    if b0 < 0x80 then
      Some((b0 as char, 1))
    else if 0xC2 <= b0 < 0xE0 then
      if |b| >= 2 && IsCont(b[1]) then
        Some((((b0 - 0xC0) * 64 + (b1 - 0x80)) as char, 2))
      else None
    else if 0xE0 <= b0 < 0xF0 then
      var lo := if b0 == 0xE0 then 0xA0 else 0x80;
      var hi := if b0 == 0xED then 0xA0 else 0xC0;
      if |b| >= 3 && lo <= b[1] < hi && IsCont(b[2]) then
        Some((((b0 - 0xE0) * 4096 + (b1 - 0x80) * 64 + (b2 - 0x80)) as char, 3))
      else None
    else if 0xF0 <= b0 < 0xF5 then
      var lo := if b0 == 0xF0 then 0x90 else 0x80;
      var hi := if b0 == 0xF4 then 0x90 else 0xC0;
      if |b| >= 4 && lo <= b[1] < hi && IsCont(b[2]) && IsCont(b[3]) then
        Some((((b0 - 0xF0) * 262144 + (b1 - 0x80) * 4096 + (b2 - 0x80) * 64 + (b3 - 0x80)) as char, 4))
      else None
    else None
  }

  /** `b.decode('utf-8')`; None stands for the UnicodeDecodeError. */
  function Decode(b: seq<byte>): Option<string>
    decreases |b|
  {
    if b == [] then Some([])
    else
      match DecodeFirst(b)
      case None => None
      case Some((c, n)) =>
        match Decode(b[n..])
        case None => None
        case Some(t) => Some([c] + t)
  }

  function EncodeChar(c: char): seq<byte>
  {
    var n := c as int;
    if n < 0x80 then [n]
    else if n < 0x800 then [0xC0 + n / 64, 0x80 + n % 64]
    else if n < 0x10000 then [0xE0 + n / 4096, 0x80 + n / 64 % 64, 0x80 + n % 64]
    else [0xF0 + n / 262144, 0x80 + n / 4096 % 64, 0x80 + n / 64 % 64, 0x80 + n % 64]
  }

  /** `s.encode('utf-8')`. */
  function Encode(s: string): seq<byte>
    decreases |s|
  {
    if s == [] then [] else EncodeChar(s[0]) + Encode(s[1..])
  }

  lemma Split2(n: int)
    requires 0x80 <= n < 0x800
    ensures 0xC2 <= 0xC0 + n / 64 < 0xE0 && (n / 64) * 64 + n % 64 == n
  {
  }

  lemma Split3(n: int)
    requires 0x800 <= n < 0x10000 && !(0xD800 <= n < 0xE000)
    ensures n / 4096 * 4096 + n / 64 % 64 * 64 + n % 64 == n
    ensures n / 4096 == 0 ==> n / 64 % 64 >= 32
    ensures n / 4096 == 13 ==> n / 64 % 64 < 32
  {
    var hi, mid, lo := n / 4096, n / 64 % 64, n % 64;
    assert n / 64 == hi * 64 + mid;
  }

  lemma Split4(n: int)
    requires 0x10000 <= n < 0x110000
    ensures n / 262144 * 262144 + n / 4096 % 64 * 4096 + n / 64 % 64 * 64 + n % 64 == n
    ensures n / 262144 == 0 ==> n / 4096 % 64 >= 16
    ensures n / 262144 == 4 ==> n / 4096 % 64 < 16
    ensures n / 262144 <= 4
  {
    var top := n / 262144;
    assert n / 4096 == top * 64 + n / 4096 % 64;
    assert n / 64 == n / 4096 * 64 + n / 64 % 64;
  }

  lemma DecodeFirstOfEncodeChar(c: char, rest: seq<byte>)
    ensures DecodeFirst(EncodeChar(c) + rest) == Some((c, |EncodeChar(c)|))
  {
    var n := c as int;
    if n < 0x80 {
    } else if n < 0x800 {
      DecodeFirstOfTwo(c, rest);
    } else if n < 0x10000 {
      DecodeFirstOfThree(c, rest);
    } else {
      DecodeFirstOfFour(c, rest);
    }
  }

  lemma DecodeFirstOfTwo(c: char, rest: seq<byte>)
    requires 0x80 <= c as int < 0x800
    ensures DecodeFirst(EncodeChar(c) + rest) == Some((c, 2))
  {
    var n := c as int;
    Split2(n);
    var b := EncodeChar(c) + rest;
    var hi, lo := n / 64, n % 64;
    assert b[0] as int == 0xC0 + hi && b[1] as int == 0x80 + lo;
    assert hi * 64 + lo == n;
  }

  lemma DecodeFirstOfThree(c: char, rest: seq<byte>)
    requires 0x800 <= c as int < 0x10000
    ensures DecodeFirst(EncodeChar(c) + rest) == Some((c, 3))
  {
    var n := c as int;
    Split3(n);
    var b := EncodeChar(c) + rest;
    var hi, mid, lo := n / 4096, n / 64 % 64, n % 64;
    assert b[0] as int == 0xE0 + hi && b[1] as int == 0x80 + mid && b[2] as int == 0x80 + lo;
    assert hi * 4096 + mid * 64 + lo == n;
  }

  lemma DecodeFirstOfFour(c: char, rest: seq<byte>)
    requires 0x10000 <= c as int
    ensures DecodeFirst(EncodeChar(c) + rest) == Some((c, 4))
  {
    var n := c as int;
    Split4(n);
    var b := EncodeChar(c) + rest;
    var top, hi, mid, lo := n / 262144, n / 4096 % 64, n / 64 % 64, n % 64;
    assert b[0] as int == 0xF0 + top && b[1] as int == 0x80 + hi;
    assert b[2] as int == 0x80 + mid && b[3] as int == 0x80 + lo;
    assert top * 262144 + hi * 4096 + mid * 64 + lo == n;
  }

  /** Decoding undoes encoding, for every text. */
  lemma {:induction false} RoundTrip(s: string)
    ensures Decode(Encode(s)) == Some(s)
    decreases |s|
  {
    if s != [] {
      var e := EncodeChar(s[0]);
      var rest := Encode(s[1..]);
      DecodeFirstOfEncodeChar(s[0], rest);
      assert (e + rest)[|e|..] == rest;
      RoundTrip(s[1..]);
      assert [s[0]] + s[1..] == s;
    }
  }

  /** Digits in base 64 are recovered by division and remainder. */
  lemma Join2(hi: int, lo: int)
    requires 0 <= lo < 64
    ensures (hi * 64 + lo) / 64 == hi && (hi * 64 + lo) % 64 == lo
  {
  }

  lemma Join3(hi: int, mid: int, lo: int)
    requires 0 <= hi && 0 <= mid < 64 && 0 <= lo < 64
    ensures var n := hi * 4096 + mid * 64 + lo;
      n / 4096 == hi && n / 64 % 64 == mid && n % 64 == lo
  {
    var n := hi * 4096 + mid * 64 + lo;
    Join2(hi * 64 + mid, lo);
    assert n == (hi * 64 + mid) * 64 + lo;
    Join2(hi, mid);
    assert n / 4096 == n / 64 / 64;
  }

  lemma Join4(top: int, hi: int, mid: int, lo: int)
    requires 0 <= top && 0 <= hi < 64 && 0 <= mid < 64 && 0 <= lo < 64
    ensures var n := top * 262144 + hi * 4096 + mid * 64 + lo;
      n / 262144 == top && n / 4096 % 64 == hi && n / 64 % 64 == mid && n % 64 == lo
  {
    var n := top * 262144 + hi * 4096 + mid * 64 + lo;
    Join3(top * 64 + hi, mid, lo);
    assert n == (top * 64 + hi) * 4096 + mid * 64 + lo;
    Join2(top, hi);
    assert n / 262144 == n / 4096 / 64;
  }

  /** A character the decoder reads is encoded by exactly the bytes it read: nothing overlong is accepted. */
  lemma DecodeFirstIsEncoding(b: seq<byte>)
    requires b != [] && DecodeFirst(b).Some?
    ensures EncodeChar(DecodeFirst(b).value.0) == b[..DecodeFirst(b).value.1]
  {
    var b0: int := b[0];
    if b0 < 0x80 {
    } else if b0 < 0xE0 {
      var b1: int := b[1];
      Join2(b0 - 0xC0, b1 - 0x80);
    } else if b0 < 0xF0 {
      var b1: int := b[1];
      var b2: int := b[2];
      Join3(b0 - 0xE0, b1 - 0x80, b2 - 0x80);
    } else {
      var b1: int := b[1];
      var b2: int := b[2];
      var b3: int := b[3];
      Join4(b0 - 0xF0, b1 - 0x80, b2 - 0x80, b3 - 0x80);
    }
  }

  /** Whatever the decoder accepts is the encoding of what it returns. */
  lemma {:induction false} DecodeOnlyEncodings(b: seq<byte>)
    ensures Decode(b).Some? ==> Encode(Decode(b).value) == b
    decreases |b|
  {
    if b != [] && Decode(b).Some? {
      var (c, n) := DecodeFirst(b).value;
      var t := Decode(b[n..]).value;
      DecodeFirstIsEncoding(b);
      DecodeOnlyEncodings(b[n..]);
      var s := [c] + t;
      assert s[0] == c && s[1..] == t;
      assert Encode(s) == EncodeChar(c) + Encode(t);
      assert b[..n] + b[n..] == b;
    }
  }

  /** Decoding and encoding are inverse: `b` decodes to `s` exactly when `s` encodes to `b`. */
  lemma DecodeIff(b: seq<byte>, s: string)
    ensures Decode(b) == Some(s) <==> Encode(s) == b
  {
    DecodeOnlyEncodings(b);
    RoundTrip(s);
  }
}
