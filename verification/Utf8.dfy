/** Strict UTF-8 as in section 3 of RFC 3629, shared by the identity keys and the binary frames. */
module Utf8 {
  import opened Prelude

  function EncodeOne(c: Code): (bytes: Bytes)
    ensures 1 <= |bytes| <= 4
  {
    if c < 0x80 then [c]
    else if c < 0x800 then [0xC0 + c / 64, 0x80 + c % 64]
    else if c < 0x1_0000 then [0xE0 + c / 64 / 64, 0x80 + c / 64 % 64, 0x80 + c % 64]
    else [0xF0 + c / 64 / 64 / 64, 0x80 + c / 64 / 64 % 64, 0x80 + c / 64 % 64, 0x80 + c % 64]
  }

  function Encode(s: Text): (bytes: Bytes)
    requires IsScalarText(s)
    ensures |s| <= |bytes| <= 4 * |s|
  {
    if s == [] then [] else EncodeOne(s[0]) + Encode(s[1..])
  }

  predicate IsTail(b: Byte) { 0x80 <= b <= 0xBF }

  /** One more base-64 digit below `high`. */
  function Push(high: int, tail: Byte): (c: int)
    ensures IsTail(tail) ==> c / 64 == high && c % 64 == tail - 0x80
  {
    high * 64 + (tail - 0x80)
  }

  /** The first character and its length, by the byte ranges that admit no overlong form and no surrogate. */
  function DecodeOne(b: Bytes): Option<(Code, nat)> {
    if b == [] then None
    else if b[0] < 0x80 then Some((b[0], 1))
    else if 0xC2 <= b[0] <= 0xDF && |b| >= 2 && IsTail(b[1]) then
      Some((Push(b[0] as int - 0xC0, b[1]), 2))
    else if 0xE0 <= b[0] <= 0xEF && |b| >= 3 && IsTail(b[1]) && IsTail(b[2])
            && (b[0] == 0xE0 ==> b[1] >= 0xA0) && (b[0] == 0xED ==> b[1] <= 0x9F) then
      Some((Push(Push(b[0] as int - 0xE0, b[1]), b[2]), 3))
    else if 0xF0 <= b[0] <= 0xF4 && |b| >= 4 && IsTail(b[1]) && IsTail(b[2]) && IsTail(b[3])
            && (b[0] == 0xF0 ==> b[1] >= 0x90) && (b[0] == 0xF4 ==> b[1] <= 0x8F) then
      Some((Push(Push(Push(b[0] as int - 0xF0, b[1]), b[2]), b[3]), 4))
    else None
  }

  function Decode(b: Bytes): Option<Text> {
    if b == [] then Some([])
    else match DecodeOne(b)
      case None => None
      case Some((c, n)) =>
        if n == 0 || n > |b| then None
        else match Decode(b[n..])
          case None => None
          case Some(rest) => Some([c] + rest)
  }

  lemma DecodeOneOfEncodeOne(c: Code, rest: Bytes)
    requires !IsSurrogate(c)
    ensures DecodeOne(EncodeOne(c) + rest) == Some((c, |EncodeOne(c)|))
  {
  }

  lemma EncodeOneOfDecodeOne(b: Bytes)
    requires DecodeOne(b).Some?
    ensures var (c, n) := DecodeOne(b).value;
      !IsSurrogate(c) && 0 < n <= |b| && EncodeOne(c) == b[..n]
  {
    if 0xC2 <= b[0] <= 0xDF {
      assert b[..2] == [b[0], b[1]];
    } else if 0xE0 <= b[0] <= 0xEF {
      assert b[..3] == [b[0], b[1], b[2]];
    } else if 0xF0 <= b[0] {
      assert b[..4] == [b[0], b[1], b[2], b[3]];
    }
  }

  /** Decoding undoes encoding. */
  lemma {:induction false} DecodeOfEncode(s: Text)
    requires IsScalarText(s)
    ensures Decode(Encode(s)) == Some(s)
  {
    if s != [] {
      var head, rest := EncodeOne(s[0]), Encode(s[1..]);
      DecodeOneOfEncodeOne(s[0], rest);
      DecodeOfEncode(s[1..]);
      assert (head + rest)[|head|..] == rest;
      assert s == [s[0]] + s[1..];
    }
  }

  /** The decoder accepts nothing but encodings, each of one text. */
  lemma {:induction false} EncodeOfDecode(b: Bytes)
    requires Decode(b).Some?
    ensures IsScalarText(Decode(b).value) && Encode(Decode(b).value) == b
  {
    if b != [] {
      EncodeOneOfDecodeOne(b);
      var (c, n) := DecodeOne(b).value;
      EncodeOfDecode(b[n..]);
      var rest := Decode(b[n..]).value;
      assert ([c] + rest)[1..] == rest;
      assert b == b[..n] + b[n..];
    }
  }

  lemma EncodeIsInjective(s: Text, t: Text)
    requires IsScalarText(s) && IsScalarText(t) && Encode(s) == Encode(t)
    ensures s == t
  {
    DecodeOfEncode(s);
    DecodeOfEncode(t);
  }
}
