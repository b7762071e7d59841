/**
 * UTF-8 as Rust's `str::as_bytes` writes it and `String::from_utf8` accepts it
 * (the byte ranges of RFC 3629, section 4): `Decode` succeeds exactly on the
 * encodings of strings, and returns the string encoded.
 */
module Utf8 {
  import opened Wrappers
  import opened Sequences

  newtype byte = x: int | 0 <= x < 0x100

  predicate IsContinuation(b: byte) { 0x80 <= b < 0xC0 }

  /** The one to four bytes that encode one Unicode scalar value: its bits, six to a trailing byte. */
  function EncodeChar(c: char): (bs: seq<byte>)
    ensures 1 <= |bs| <= 4
    ensures (|bs| == 1) == (c as int < 0x80)
  {
    var n := c as int;
    var q1, d0 := n / 0x40, n % 0x40;
    var q2, d1 := q1 / 0x40, q1 % 0x40;
    var q3, d2 := q2 / 0x40, q2 % 0x40;
    if n < 0x80 then
      [n as byte]
    else if n < 0x800 then
      [(0xC0 + q1) as byte, (0x80 + d0) as byte]
    else if n < 0x1_0000 then
      [(0xE0 + q2) as byte, (0x80 + d1) as byte, (0x80 + d0) as byte]
    else
      [(0xF0 + q3) as byte, (0x80 + d2) as byte, (0x80 + d1) as byte, (0x80 + d0) as byte]
  }

  lemma DivMod64(n: int, q: int, r: int)
    requires 0 <= r < 0x40 && n == q * 0x40 + r
    ensures n / 0x40 == q && n % 0x40 == r
  {
  }

  /** The two-byte encodings are the values 0x80 to 0x7FF. */
  lemma EncodeTwo(x: int, y: int)
    requires 2 <= x < 0x20 && 0 <= y < 0x40
    ensures var n := x * 0x40 + y;
      (0x80 <= n < 0x800 && EncodeChar(n as char) == [(0xC0 + x) as byte, (0x80 + y) as byte])
  {
    DivMod64(x * 0x40 + y, x, y);
  }

  /** The three-byte encodings are the values 0x800 to 0xFFFF outside the surrogates. */
  lemma EncodeThree(x: int, y: int, z: int)
    requires 0 <= x < 0x10 && 0 <= y < 0x40 && 0 <= z < 0x40
    requires var n := (x * 0x40 + y) * 0x40 + z; 0x800 <= n && !(0xD800 <= n < 0xE000)
    ensures var n := (x * 0x40 + y) * 0x40 + z;
      (n < 0x1_0000 && EncodeChar(n as char) == [(0xE0 + x) as byte, (0x80 + y) as byte, (0x80 + z) as byte])
  {
    var q1 := x * 0x40 + y;
    DivMod64(q1 * 0x40 + z, q1, z);
    DivMod64(q1, x, y);
    assert x / 0x40 == 0;
  }

  /** The four-byte encodings are the values 0x1_0000 to 0x10_FFFF. */
  lemma EncodeFour(x: int, y: int, z: int, w: int)
    requires 0 <= x < 8 && 0 <= y < 0x40 && 0 <= z < 0x40 && 0 <= w < 0x40
    requires var n := ((x * 0x40 + y) * 0x40 + z) * 0x40 + w; 0x1_0000 <= n < 0x11_0000
    ensures var n := ((x * 0x40 + y) * 0x40 + z) * 0x40 + w;
      EncodeChar(n as char) == [(0xF0 + x) as byte, (0x80 + y) as byte, (0x80 + z) as byte, (0x80 + w) as byte]
  {
    var q2 := x * 0x40 + y;
    var q1 := q2 * 0x40 + z;
    DivMod64(q1 * 0x40 + w, q1, w);
    DivMod64(q1, q2, z);
    DivMod64(q2, x, y);
  }

  /** `str::as_bytes`: the encodings of the characters, one after the other. */
  function Encode(s: string): (bs: seq<byte>)
    ensures |bs| >= |s|
  {
    if s == [] then [] else EncodeChar(s[0]) + Encode(s[1..])
  }

  /** The scalar value encoded at the start of `bs`, if the bytes there are well-formed. */
  function DecodeFirst(bs: seq<byte>): (r: Option<char>)
    requires bs != []
    ensures r.Some? ==> |EncodeChar(r.value)| <= |bs| && bs[..|EncodeChar(r.value)|] == EncodeChar(r.value)
  {
    var b0 := bs[0] as int;
    if b0 < 0x80 then
      Some(b0 as char)
    else if b0 < 0xC2 then
      None
    else if b0 < 0xE0 then
      if |bs| < 2 || !IsContinuation(bs[1]) then None
      else
        var n := (b0 - 0xC0) * 0x40 + (bs[1] as int - 0x80);
        EncodeTwo(b0 - 0xC0, bs[1] as int - 0x80);
        assert bs[..2] == [bs[0], bs[1]];
        Some(n as char)
    else if b0 < 0xF0 then
      var lo := if b0 == 0xE0 then 0xA0 else 0x80;
      var hi := if b0 == 0xED then 0x9F else 0xBF;
      if |bs| < 3 || !(lo <= bs[1] as int <= hi) || !IsContinuation(bs[2]) then None
      else
        var n := ((b0 - 0xE0) * 0x40 + (bs[1] as int - 0x80)) * 0x40 + (bs[2] as int - 0x80);
        EncodeThree(b0 - 0xE0, bs[1] as int - 0x80, bs[2] as int - 0x80);
        assert bs[..3] == [bs[0], bs[1], bs[2]];
        Some(n as char)
    else if b0 < 0xF5 then
      var lo := if b0 == 0xF0 then 0x90 else 0x80;
      var hi := if b0 == 0xF4 then 0x8F else 0xBF;
      if |bs| < 4 || !(lo <= bs[1] as int <= hi) || !IsContinuation(bs[2]) || !IsContinuation(bs[3]) then None
      else
        var n := (((b0 - 0xF0) * 0x40 + (bs[1] as int - 0x80)) * 0x40
                  + (bs[2] as int - 0x80)) * 0x40 + (bs[3] as int - 0x80);
        EncodeFour(b0 - 0xF0, bs[1] as int - 0x80, bs[2] as int - 0x80, bs[3] as int - 0x80);
        assert bs[..4] == [bs[0], bs[1], bs[2], bs[3]];
        Some(n as char)
    else
      None
  }

  /** `String::from_utf8`: the string the bytes encode, or `None` when they are not UTF-8. */
  function Decode(bs: seq<byte>): (r: Option<string>)
    decreases |bs|
    ensures r.Some? ==> Encode(r.value) == bs
  {
    if bs == [] then Some([])
    else
      match DecodeFirst(bs)
      case None => None
      case Some(c) =>
        var k := |EncodeChar(c)|;
        match Decode(bs[k..])
        case None => None
        case Some(rest) =>
          EncodeStep(bs, c, rest);
          Some([c] + rest)
  }

  lemma EncodeCons(c: char, s: string)
    ensures Encode([c] + s) == EncodeChar(c) + Encode(s)
  {
    assert ([c] + s)[1..] == s;
  }

  /** Bytes that start with the encoding of `c` and go on with the encoding of `rest` encode `[c] + rest`. */
  lemma EncodeStep(bs: seq<byte>, c: char, rest: string)
    requires |EncodeChar(c)| <= |bs| && bs[..|EncodeChar(c)|] == EncodeChar(c)
    requires Encode(rest) == bs[|EncodeChar(c)|..]
    ensures Encode([c] + rest) == bs
  {
    EncodeCons(c, rest);
    assert bs == bs[..|EncodeChar(c)|] + bs[|EncodeChar(c)|..];
  }

  /** Decoding reads back exactly the character that was encoded, whatever follows it. */
  lemma DecodeFirstEncodeChar(c: char, rest: seq<byte>)
    ensures DecodeFirst(EncodeChar(c) + rest) == Some(c)
  {
    var n := c as int;
    if n < 0x80 {
    } else if n < 0x800 {
      DecodeFirstTwo(c, rest);
    } else if n < 0x1_0000 {
      DecodeFirstThree(c, rest);
    } else {
      DecodeFirstFour(c, rest);
    }
  }

  lemma DecodeFirstTwo(c: char, rest: seq<byte>)
    requires 0x80 <= c as int < 0x800
    ensures DecodeFirst(EncodeChar(c) + rest) == Some(c)
  {
    var n := c as int;
    var q1, d0 := n / 0x40, n % 0x40;
    assert n == q1 * 0x40 + d0;
    var bs := EncodeChar(c) + rest;
    assert bs[0] as int == 0xC0 + q1 && bs[1] as int == 0x80 + d0;
  }

  lemma DecodeFirstThree(c: char, rest: seq<byte>)
    requires 0x800 <= c as int < 0x1_0000
    ensures DecodeFirst(EncodeChar(c) + rest) == Some(c)
  {
    var n := c as int;
    var q1, d0 := n / 0x40, n % 0x40;
    var q2, d1 := q1 / 0x40, q1 % 0x40;
    assert n == q1 * 0x40 + d0 && q1 == q2 * 0x40 + d1;
    var bs := EncodeChar(c) + rest;
    assert bs[0] as int == 0xE0 + q2 && bs[1] as int == 0x80 + d1 && bs[2] as int == 0x80 + d0;
  }

  lemma DecodeFirstFour(c: char, rest: seq<byte>)
    requires 0x1_0000 <= c as int
    ensures DecodeFirst(EncodeChar(c) + rest) == Some(c)
  {
    var n := c as int;
    var q1, d0 := n / 0x40, n % 0x40;
    var q2, d1 := q1 / 0x40, q1 % 0x40;
    var q3, d2 := q2 / 0x40, q2 % 0x40;
    assert n == q1 * 0x40 + d0 && q1 == q2 * 0x40 + d1 && q2 == q3 * 0x40 + d2;
    var bs := EncodeChar(c) + rest;
    assert bs[0] as int == 0xF0 + q3 && bs[1] as int == 0x80 + d2;
    assert bs[2] as int == 0x80 + d1 && bs[3] as int == 0x80 + d0;
  }

  /** Every string survives an encode/decode round trip. */
  lemma {:induction false} DecodeEncode(s: string)
    ensures Decode(Encode(s)) == Some(s)
  {
    if s != [] {
      var e := EncodeChar(s[0]);
      var bs := Encode(s);
      DecodeFirstEncodeChar(s[0], Encode(s[1..]));
      assert bs[|e|..] == Encode(s[1..]);
      DecodeEncode(s[1..]);
      assert [s[0]] + s[1..] == s;
    }
  }

  /** `from_utf8` accepts exactly the byte strings that encode some string. */
  lemma DecodeSucceedsIffEncoding(bs: seq<byte>, s: string)
    ensures Decode(bs) == Some(s) <==> bs == Encode(s)
  {
    if bs == Encode(s) {
      DecodeEncode(s);
    }
  }

  /** Encoding distributes over concatenation. */
  lemma {:induction false} EncodeAppend(a: string, b: string)
    ensures Encode(a + b) == Encode(a) + Encode(b)
  {
    if a == [] {
      assert a + b == b;
    } else {
      var e, t := EncodeChar(a[0]), a[1..];
      assert (a + b)[0] == a[0] && (a + b)[1..] == t + b;
      EncodeAppend(t, b);
      calc {
        Encode(a + b);
        e + Encode(t + b);
        e + (Encode(t) + Encode(b));
        { AppendAssoc(e, Encode(t), Encode(b)); }
        (e + Encode(t)) + Encode(b);
      }
    }
  }
}
