/** Python's strict UTF-8 codec (`str.encode('utf-8')`, `bytes.decode('utf-8')`),
    as defined in RFC 3629, over Dafny's `char` (a Unicode scalar value). */
module Utf8 {
  import opened Wrappers

  newtype byte = x: int | 0 <= x < 256

  predicate IsContinuation(b: byte) {
    0x80 <= b < 0xC0
  }

  /** The one to four bytes that encode `c` (section 3 of RFC 3629). */
  function EncodeChar(c: char): (r: seq<byte>)
    ensures 1 <= |r| <= 4
    ensures |r| == 1 <==> c as int < 0x80
    ensures |r| == 1 ==> r[0] as int == c as int
  {
    var n := c as int;
    var q1, b1 := n / 64, n % 64;
    var q2, b2 := q1 / 64, q1 % 64;
    var q3, b3 := q2 / 64, q2 % 64;
    if n < 0x80 then [n as byte]
    else if n < 0x800 then [(0xC0 + q1) as byte, (0x80 + b1) as byte]
    else if n < 0x10000 then [(0xE0 + q2) as byte, (0x80 + b2) as byte, (0x80 + b1) as byte]
    else [(0xF0 + q3) as byte, (0x80 + b3) as byte, (0x80 + b2) as byte, (0x80 + b1) as byte]
  }

  /** Every byte of a multi-byte sequence is at least 0x80, so no part of it is
      mistaken for an ASCII character. */
  lemma EncodeCharHigh(c: char)
    ensures |EncodeChar(c)| > 1 ==> forall i :: 0 <= i < |EncodeChar(c)| ==> 0x80 <= EncodeChar(c)[i]
  {
  }

  function Encode(s: string): seq<byte> {
    if s == [] then [] else EncodeChar(s[0]) + Encode(s[1..])
  }

  /** Decodes the character at the start of `b` and says how many bytes it took,
      or gives None when `b` does not start with a well-formed sequence: a stray
      continuation byte, a truncated sequence, an overlong form, a surrogate or a
      value beyond U+10FFFF. */
  function DecodeFirst(b: seq<byte>): (r: Option<(char, nat)>)
    requires |b| > 0
    ensures r.Some? ==> 1 <= r.value.1 <= |b|
  {
    var b0 := b[0] as int;
    if b0 < 0x80 then
      Some((b0 as char, 1))
    else if 0xC0 <= b0 < 0xE0 then
      if |b| < 2 || !IsContinuation(b[1]) then None
      else
        var cp := (b0 - 0xC0) * 64 + (b[1] as int - 0x80);
        if cp < 0x80 then None
        else
          Some((cp as char, 2))
    else if 0xE0 <= b0 < 0xF0 then
      if |b| < 3 || !IsContinuation(b[1]) || !IsContinuation(b[2]) then None
      else
        var hi := (b0 - 0xE0) * 64 + (b[1] as int - 0x80);
        var cp := hi * 64 + (b[2] as int - 0x80);
        if cp < 0x800 || (0xD800 <= cp < 0xE000) then None
        else
          Some((cp as char, 3))
    else if 0xF0 <= b0 < 0xF8 then
      if |b| < 4 || !IsContinuation(b[1]) || !IsContinuation(b[2]) || !IsContinuation(b[3]) then None
      else
        var top := (b0 - 0xF0) * 64 + (b[1] as int - 0x80);
        var hi := top * 64 + (b[2] as int - 0x80);
        var cp := hi * 64 + (b[3] as int - 0x80);
        if cp < 0x10000 || cp >= 0x110000 then None
        else
          Some((cp as char, 4))
    else
      None
  }

  /** Strict decoding: the whole input must be well-formed. */
  function Decode(b: seq<byte>): Option<string>
    decreases |b|
  {
    if b == [] then Some("")
    else
      match DecodeFirst(b)
      case None => None
      case Some((c, k)) =>
        match Decode(b[k..])
        case None => None
        case Some(s) => Some([c] + s)
  }

  /** What DecodeFirst accepts is exactly the encoding of the character it gives. */
  lemma DecodeFirstSound(b: seq<byte>)
    requires |b| > 0 && DecodeFirst(b).Some?
    ensures b[..DecodeFirst(b).value.1] == EncodeChar(DecodeFirst(b).value.0)
  {
    var b0 := b[0] as int;
    if 0xC0 <= b0 < 0xE0 {
      DecodeTwoSound(b);
    } else if 0xE0 <= b0 < 0xF0 {
      DecodeThreeSound(b);
    } else if 0xF0 <= b0 < 0xF8 {
      DecodeFourSound(b);
    }
  }

  lemma DecodeTwoSound(b: seq<byte>)
    requires |b| > 0 && 0xC0 <= b[0] < 0xE0 && DecodeFirst(b).Some?
    ensures b[..2] == EncodeChar(DecodeFirst(b).value.0)
  {
    DivStep(b[0] as int - 0xC0, b[1] as int - 0x80);
  }

  lemma DecodeThreeSound(b: seq<byte>)
    requires |b| > 0 && 0xE0 <= b[0] < 0xF0 && DecodeFirst(b).Some?
    ensures b[..3] == EncodeChar(DecodeFirst(b).value.0)
  {
    var hi := (b[0] as int - 0xE0) * 64 + (b[1] as int - 0x80);
    DivStep(hi, b[2] as int - 0x80);
    DivStep(b[0] as int - 0xE0, b[1] as int - 0x80);
  }

  lemma DecodeFourSound(b: seq<byte>)
    requires |b| > 0 && 0xF0 <= b[0] < 0xF8 && DecodeFirst(b).Some?
    ensures b[..4] == EncodeChar(DecodeFirst(b).value.0)
  {
    var top := (b[0] as int - 0xF0) * 64 + (b[1] as int - 0x80);
    var hi := top * 64 + (b[2] as int - 0x80);
    DivStep(hi, b[3] as int - 0x80);
    DivStep(top, b[2] as int - 0x80);
    DivStep(b[0] as int - 0xF0, b[1] as int - 0x80);
  }

  /** Dividing `64 * q + d` by 64 gives back `q` and `d`. */
  lemma DivStep(q: int, d: int)
    requires 0 <= d < 64
    ensures (64 * q + d) / 64 == q && (64 * q + d) % 64 == d
  {
  }

  lemma {:induction false} EncodeAppend(a: string, b: string)
    ensures Encode(a + b) == Encode(a) + Encode(b)
  {
    if a == [] {
      assert a + b == b;
    } else {
      assert (a + b)[0] == a[0] && (a + b)[1..] == a[1..] + b;
      EncodeAppend(a[1..], b);
    }
  }

  /** A string of ASCII characters encodes to one byte per character. */
  lemma {:induction false} EncodeAscii(s: string)
    requires forall i :: 0 <= i < |s| ==> s[i] as int < 0x80
    ensures |Encode(s)| == |s|
    ensures forall i :: 0 <= i < |s| ==> Encode(s)[i] as int == s[i] as int
  {
    if s != [] {
      EncodeAscii(s[1..]);
    }
  }

  /** An ASCII character that does not occur in `s` does not occur as a byte of
      its encoding either: every byte of a multi-byte sequence is at least 0x80. */
  lemma {:induction false} EncodeAvoids(s: string, c: char)
    requires c as int < 0x80 && c !in s
    ensures forall i :: 0 <= i < |Encode(s)| ==> Encode(s)[i] as int != c as int
  {
    if s != [] {
      EncodeAvoids(s[1..], c);
      EncodeCharHigh(s[0]);
      assert s == [s[0]] + s[1..];
    }
  }

  /** An ASCII character of `s` occurs as a byte of its encoding. */
  lemma {:induction false} EncodeContains(s: string, c: char)
    requires c as int < 0x80 && c in s
    ensures exists i :: 0 <= i < |Encode(s)| && Encode(s)[i] as int == c as int
  {
    if s[0] == c {
      assert Encode(s)[0] as int == c as int;
    } else {
      EncodeContains(s[1..], c);
      var i :| 0 <= i < |Encode(s[1..])| && Encode(s[1..])[i] as int == c as int;
      assert Encode(s)[|EncodeChar(s[0])| + i] == Encode(s[1..])[i];
    }
  }

  lemma DecodeFirstEncodeChar(c: char, rest: seq<byte>)
    ensures DecodeFirst(EncodeChar(c) + rest) == Some((c, |EncodeChar(c)|))
  {
    var n := c as int;
    var q1, b1 := n / 64, n % 64;
    var q2, b2 := q1 / 64, q1 % 64;
    var q3, b3 := q2 / 64, q2 % 64;
    assert n == 64 * q1 + b1;
    assert q1 == 64 * q2 + b2;
    assert q2 == 64 * q3 + b3;
  }

  /** Decoding undoes encoding. */
  lemma {:induction false} DecodeEncode(s: string)
    ensures Decode(Encode(s)) == Some(s)
  {
    if s != [] {
      var e := EncodeChar(s[0]);
      DecodeFirstEncodeChar(s[0], Encode(s[1..]));
      assert (e + Encode(s[1..]))[|e|..] == Encode(s[1..]);
      DecodeEncode(s[1..]);
      assert [s[0]] + s[1..] == s;
    }
  }

  lemma EncodeCons(b: seq<byte>, c: char, k: nat, rest: string)
    requires k <= |b| && b[..k] == EncodeChar(c) && Encode(rest) == b[k..]
    ensures Encode([c] + rest) == b
  {
    var s := [c] + rest;
    assert s[0] == c && s[1..] == rest;
    assert b == b[..k] + b[k..];
  }

  /** Whatever decodes successfully is exactly the encoding of what it decodes to. */
  lemma {:induction false} EncodeDecode(b: seq<byte>)
    requires Decode(b).Some?
    ensures Encode(Decode(b).value) == b
    decreases |b|
  {
    if b != [] {
      var (c, k) := DecodeFirst(b).value;
      DecodeFirstSound(b);
      EncodeDecode(b[k..]);
      var rest := Decode(b[k..]).value;
      assert Decode(b).value == [c] + rest;
      EncodeCons(b, c, k, rest);
    }
  }
}
