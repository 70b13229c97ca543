/** `Encoding.UTF8` as used for structured payloads: a string (a sequence of Unicode
    scalar values) becomes bytes, and a strict decoder reads them back. */
module Utf8 {
  import opened Wrappers

  type Byte = b: int | 0 <= b < 256

  predicate IsContinuation(b: Byte) { 0x80 <= b < 0xC0 }

  /** The one- to four-byte encoding of a scalar value. */
  function EncodeChar(c: char): (r: seq<Byte>)
    ensures 1 <= |r| <= 4
  {
    var n := c as int;
    if n < 0x80 then [n]
    else if n < 0x800 then [0xC0 + n / 64, 0x80 + n % 64]
    else if n < 0x1_0000 then [0xE0 + n / 4096, 0x80 + (n / 64) % 64, 0x80 + n % 64]
    else [0xF0 + n / 262144, 0x80 + (n / 4096) % 64, 0x80 + (n / 64) % 64, 0x80 + n % 64]
  }

  /** `Encoding.UTF8.GetBytes`. */
  function Encode(s: string): (r: seq<Byte>)
    ensures |s| <= |r| <= 4 * |s|
  {
    if s == [] then [] else EncodeChar(s[0]) + Encode(s[1..])
  }

  /** The scalar value at the head of `b` and the number of bytes it takes, if `b`
      starts with a well-formed, shortest-form sequence. */
  function DecodeFirst(b: seq<Byte>): (r: Option<(char, nat)>)
    ensures r.Some? ==> 1 <= r.value.1 <= |b| && r.value.1 <= 4
  {
    if b == [] then None
    else if b[0] < 0x80 then Some((b[0] as char, 1))
    else if 0xC2 <= b[0] <= 0xDF then
      if |b| < 2 || !IsContinuation(b[1]) then None
      else Some((((b[0] as int - 0xC0) * 64 + (b[1] as int - 0x80)) as char, 2))
    else if 0xE0 <= b[0] <= 0xEF then
      if |b| < 3 || !IsContinuation(b[1]) || !IsContinuation(b[2]) then None
      else
        var n := (b[0] as int - 0xE0) * 4096 + (b[1] as int - 0x80) * 64 + (b[2] as int - 0x80);
        if n < 0x800 || 0xD800 <= n <= 0xDFFF then None else Some((n as char, 3))
    else if 0xF0 <= b[0] <= 0xF4 then
      if |b| < 4 || !IsContinuation(b[1]) || !IsContinuation(b[2]) || !IsContinuation(b[3]) then None
      else
        var n := (b[0] as int - 0xF0) * 262144 + (b[1] as int - 0x80) * 4096 + (b[2] as int - 0x80) * 64 + (b[3] as int - 0x80);
        if n < 0x1_0000 || n > 0x10_FFFF then None else Some((n as char, 4))
    else None
  }

  /** Strict decoding: `None` for any ill-formed input. */
  function Decode(b: seq<Byte>): Option<string>
    decreases |b|
  {
    if b == [] then Some([])
    else match DecodeFirst(b)
      case None => None
      case Some((c, k)) =>
        match Decode(b[k..])
        case None => None
        case Some(s) => Some([c] + s)
  }

  /** The decoder reads back the encoding of one scalar value, whatever follows it. */
  lemma DecodeFirstOfEncodeChar(c: char, rest: seq<Byte>)
    ensures DecodeFirst(EncodeChar(c) + rest) == Some((c, |EncodeChar(c)|))
  {
    var n := c as int;
    if n < 0x80 {
    } else if n < 0x800 {
      EncodeTwo(c, rest);
    } else if n < 0x1_0000 {
      EncodeThree(c, rest);
    } else {
      EncodeFour(c, rest);
    }
  }

  lemma EncodeTwo(c: char, rest: seq<Byte>)
    requires 0x80 <= c as int < 0x800
    ensures DecodeFirst(EncodeChar(c) + rest) == Some((c, 2))
  {
    var n := c as int;
    var b := EncodeChar(c) + rest;
    assert b[0] == 0xC0 + n / 64 && b[1] == 0x80 + n % 64;
    assert (b[0] as int - 0xC0) * 64 + (b[1] as int - 0x80) == n;
  }

  lemma EncodeThree(c: char, rest: seq<Byte>)
    requires 0x800 <= c as int < 0x1_0000
    ensures DecodeFirst(EncodeChar(c) + rest) == Some((c, 3))
  {
    var n := c as int;
    var b := EncodeChar(c) + rest;
    var h := n / 64;
    assert b[0] == 0xE0 + n / 4096 && b[1] == 0x80 + h % 64 && b[2] == 0x80 + n % 64;
    assert n / 4096 == h / 64;
    assert n == h * 64 + n % 64 && h == (h / 64) * 64 + h % 64;
    assert (b[0] as int - 0xE0) * 4096 + (b[1] as int - 0x80) * 64 + (b[2] as int - 0x80) == n;
  }

  lemma EncodeFour(c: char, rest: seq<Byte>)
    requires 0x1_0000 <= c as int
    ensures DecodeFirst(EncodeChar(c) + rest) == Some((c, 4))
  {
    var n := c as int;
    var b := EncodeChar(c) + rest;
    var h := n / 64;
    var g := h / 64;
    assert b[0] == 0xF0 + n / 262144 && b[1] == 0x80 + (n / 4096) % 64;
    assert b[2] == 0x80 + h % 64 && b[3] == 0x80 + n % 64;
    assert n / 4096 == g && n / 262144 == g / 64;
    assert n == h * 64 + n % 64 && h == g * 64 + h % 64 && g == (g / 64) * 64 + g % 64;
    assert (b[0] as int - 0xF0) * 262144 + (b[1] as int - 0x80) * 4096 + (b[2] as int - 0x80) * 64 + (b[3] as int - 0x80) == n;
  }

  /** A prefix the decoder accepts is the encoding of the scalar value it returns. */
  lemma DecodeFirstIsEncodeChar(b: seq<Byte>)
    requires DecodeFirst(b).Some?
    ensures var (c, k) := DecodeFirst(b).value; b[..k] == EncodeChar(c)
  {
    var k := DecodeFirst(b).value.1;
    if k == 2 {
      TwoByteSequence(b);
    } else if k == 3 {
      ThreeByteSequence(b);
    } else if k == 4 {
      FourByteSequence(b);
    }
  }

  lemma TwoByteSequence(b: seq<Byte>)
    requires DecodeFirst(b).Some? && DecodeFirst(b).value.1 == 2
    ensures b[..2] == EncodeChar(DecodeFirst(b).value.0)
  {
    var n := DecodeFirst(b).value.0 as int;
    assert n == (b[0] as int - 0xC0) * 64 + (b[1] as int - 0x80);
    assert n / 64 == b[0] as int - 0xC0 && n % 64 == b[1] as int - 0x80;
  }

  lemma ThreeByteSequence(b: seq<Byte>)
    requires DecodeFirst(b).Some? && DecodeFirst(b).value.1 == 3
    ensures b[..3] == EncodeChar(DecodeFirst(b).value.0)
  {
    var n := DecodeFirst(b).value.0 as int;
    var h := (b[0] as int - 0xE0) * 64 + (b[1] as int - 0x80);
    assert n == h * 64 + (b[2] as int - 0x80);
    assert n / 64 == h && n % 64 == b[2] as int - 0x80;
    assert h / 64 == b[0] as int - 0xE0 && h % 64 == b[1] as int - 0x80;
    assert n / 4096 == h / 64;
  }

  lemma FourByteSequence(b: seq<Byte>)
    requires DecodeFirst(b).Some? && DecodeFirst(b).value.1 == 4
    ensures b[..4] == EncodeChar(DecodeFirst(b).value.0)
  {
    var n := DecodeFirst(b).value.0 as int;
    var g := (b[0] as int - 0xF0) * 64 + (b[1] as int - 0x80);
    var h := g * 64 + (b[2] as int - 0x80);
    assert n == h * 64 + (b[3] as int - 0x80);
    assert n / 64 == h && n % 64 == b[3] as int - 0x80;
    assert h / 64 == g && h % 64 == b[2] as int - 0x80;
    assert g / 64 == b[0] as int - 0xF0 && g % 64 == b[1] as int - 0x80;
    assert n / 4096 == g;
    assert n / 262144 == g / 64;
  }

  /** Decoding inverts encoding. */
  lemma {:induction false} DecodeEncode(s: string)
    ensures Decode(Encode(s)) == Some(s)
  {
    if s != [] {
      var e := EncodeChar(s[0]);
      DecodeFirstOfEncodeChar(s[0], Encode(s[1..]));
      assert Encode(s)[|e|..] == Encode(s[1..]);
      DecodeEncode(s[1..]);
      assert [s[0]] + s[1..] == s;
    }
  }

  /** Encoding inverts decoding: every byte string the decoder accepts is the encoding
      of what it decodes to. */
  lemma {:induction false} EncodeDecode(b: seq<Byte>)
    requires Decode(b).Some?
    ensures Encode(Decode(b).value) == b
    decreases |b|
  {
    if b != [] {
      var c, k := DecodeStep(b);
      var t := Decode(b[k..]).value;
      EncodeDecode(b[k..]);
      EncodeCons(c, t);
      assert b == b[..k] + b[k..];
    }
  }

  /** One step of a successful decode: the first scalar value, the bytes it takes, and
      the successful decode of the rest. */
  lemma DecodeStep(b: seq<Byte>) returns (c: char, k: nat)
    requires b != [] && Decode(b).Some?
    ensures 1 <= k <= |b| && b[..k] == EncodeChar(c)
    ensures Decode(b[k..]).Some? && Decode(b).value == [c] + Decode(b[k..]).value
  {
    c, k := DecodeFirst(b).value.0, DecodeFirst(b).value.1;
    DecodeFirstIsEncodeChar(b);
  }

  lemma EncodeCons(c: char, t: string)
    ensures Encode([c] + t) == EncodeChar(c) + Encode(t)
  {
    assert ([c] + t)[1..] == t;
  }
}
