/**
 * `TextEncoder.encode` and `TextDecoder.decode` of the WHATWG Encoding standard for UTF-8.
 * A Dafny `char` is a Unicode scalar value, so every string encodes; JavaScript strings holding
 * an unpaired surrogate, which `TextEncoder` replaces by U+FFFD, are outside this model. The decoder is the
 * standard's UTF-8 decoder in replacement mode: each malformed sequence yields U+FFFD.
 * `TextDecoder` also drops a leading U+FEFF (byte order mark) unless `ignoreBOM` is set.
 */
module Utf8 {
  import opened Wrappers

  const ReplacementChar: char := 0xFFFD as char
  const ByteOrderMark: char := 0xFEFF as char

  /** The one- to four-byte UTF-8 form of a scalar value. */
  function EncodeChar(c: char): (b: seq<byte>)
    ensures 1 <= |b| <= 4
    ensures (c as int < 0x80) <==> |b| == 1
  {
    var v := c as int;
    if v < 0x80 then [v]
    else if v < 0x800 then [0xC0 + v / 64, 0x80 + v % 64]
    else if v < 0x10000 then [0xE0 + v / 4096, 0x80 + v / 64 % 64, 0x80 + v % 64]
    else [0xF0 + v / 262144, 0x80 + v / 4096 % 64, 0x80 + v / 64 % 64, 0x80 + v % 64]
  }

  /** `TextEncoder.encode`. */
  function Encode(s: string): (b: seq<byte>)
    ensures |s| <= |b| <= 4 * |s|
  {
    if |s| == 0 then [] else EncodeChar(s[0]) + Encode(s[1..])
  }

  /** The decoder's variables: code point so far, bytes needed and seen, and the range the
      next continuation byte must fall in. */
  datatype DecoderState = DecoderState(codePoint: int, needed: nat, seen: nat, lower: int, upper: int)

  const Initial := DecoderState(0, 0, 0, 0x80, 0xBF)

  /** Every value in `lo..hi` is a scalar value. */
  ghost predicate ScalarInterval(lo: int, hi: int) {
    (0 <= lo && hi < 0xD800) || (0xE000 <= lo && hi < 0x110000)
  }

  /** The states the decoder reaches: in the middle of a sequence, every code point the
      remaining in-range continuation bytes can complete is a scalar value. */
  ghost predicate Reachable(st: DecoderState) {
    if st.needed == 0 then st == Initial
    else
      && st.seen < st.needed <= 3
      && 0x80 <= st.lower <= st.upper <= 0xBF
      && var lo, hi := st.codePoint * 64 + st.lower - 0x80, st.codePoint * 64 + st.upper - 0x80;
      && var remaining := st.needed - st.seen;
      && (remaining == 1 ==> ScalarInterval(lo, hi))
      && (remaining == 2 ==> ScalarInterval(lo * 64, hi * 64 + 63))
      && (remaining == 3 ==> ScalarInterval(lo * 4096, hi * 4096 + 4095))
  }

  /** The state after a lead byte `x`. */
  function Lead(x: byte): (st: DecoderState)
    requires 0xC2 <= x <= 0xF4
    ensures Reachable(st)
  {
    if x <= 0xDF then DecoderState(x - 0xC0, 1, 0, 0x80, 0xBF)
    else if x <= 0xEF then
      DecoderState(x - 0xE0, 2, 0, if x == 0xE0 then 0xA0 else 0x80, if x == 0xED then 0x9F else 0xBF)
    else
      DecoderState(x - 0xF0, 3, 0, if x == 0xF0 then 0x90 else 0x80, if x == 0xF4 then 0x8F else 0xBF)
  }

  /** The UTF-8 decoder run over `b` from state `st`; a byte that breaks a sequence is
      restored to the input and decoded again from the initial state. */
  function DecodeFrom(b: seq<byte>, st: DecoderState): (s: string)
    requires Reachable(st)
    decreases |b|, st.needed
  {
    if |b| == 0 then
      if st.needed != 0 then [ReplacementChar] else []
    else if st.needed == 0 then
      var x := b[0];
      if x <= 0x7F then [x as char] + DecodeFrom(b[1..], Initial)
      else if 0xC2 <= x <= 0xF4 then DecodeFrom(b[1..], Lead(x))
      else [ReplacementChar] + DecodeFrom(b[1..], Initial)
    else
      var x := b[0];
      if x < st.lower || st.upper < x then [ReplacementChar] + DecodeFrom(b, Initial)
      else
        var cp := st.codePoint * 64 + (x - 0x80);
        if st.seen + 1 < st.needed then DecodeFrom(b[1..], DecoderState(cp, st.needed, st.seen + 1, 0x80, 0xBF))
        else [cp as char] + DecodeFrom(b[1..], Initial)
  }

  /** `TextDecoder.decode`; with `ignoreBom` false (the default) a leading U+FEFF is dropped. */
  function TextDecode(b: seq<byte>, ignoreBom: bool): string {
    var s := DecodeFrom(b, Initial);
    if !ignoreBom && |s| > 0 && s[0] == ByteOrderMark then s[1..] else s
  }

  predicate StartsWithBom(s: string) {
    |s| > 0 && s[0] == ByteOrderMark
  }

  /** Decoding the encoding of one character yields that character and leaves the decoder in
      its initial state for what follows. */
  lemma DecodeEncodeChar(c: char, rest: seq<byte>)
    ensures DecodeFrom(EncodeChar(c) + rest, Initial) == [c] + DecodeFrom(rest, Initial)
  {
    var v := c as int;
    if v < 0x80 {
      assert (EncodeChar(c) + rest)[1..] == rest;
    } else if v < 0x800 {
      DecodeTwoBytes(c, rest);
    } else if v < 0x10000 {
      DecodeThreeBytes(c, rest);
    } else {
      DecodeFourBytes(c, rest);
    }
  }

  lemma DecodeTwoBytes(c: char, rest: seq<byte>)
    requires 0x80 <= c as int < 0x800
    ensures DecodeFrom(EncodeChar(c) + rest, Initial) == [c] + DecodeFrom(rest, Initial)
  {
    var v := c as int;
    var b := EncodeChar(c) + rest;
    assert b[0] == 0xC0 + v / 64 && b[1] == 0x80 + v % 64;
    var s1 := Lead(b[0]);
    assert s1 == DecoderState(v / 64, 1, 0, 0x80, 0xBF);
    assert b[1..][1..] == rest;
    assert DecodeFrom(b[1..], s1) == [c] + DecodeFrom(rest, Initial);
  }

  /** A continuation byte in range that does not finish the sequence. */
  lemma ContinueStep(x: byte, rest: seq<byte>, st: DecoderState)
    requires Reachable(st) && st.needed != 0 && st.lower <= x <= st.upper && st.seen + 1 < st.needed
    ensures Reachable(DecoderState(st.codePoint * 64 + (x - 0x80), st.needed, st.seen + 1, 0x80, 0xBF))
    ensures DecodeFrom([x] + rest, st)
              == DecodeFrom(rest, DecoderState(st.codePoint * 64 + (x - 0x80), st.needed, st.seen + 1, 0x80, 0xBF))
  {
    assert ([x] + rest)[1..] == rest;
  }

  /** A continuation byte in range that finishes the sequence. */
  lemma FinishStep(x: byte, rest: seq<byte>, st: DecoderState)
    requires Reachable(st) && st.needed != 0 && st.lower <= x <= st.upper && st.seen + 1 == st.needed
    ensures DecodeFrom([x] + rest, st) == [(st.codePoint * 64 + (x - 0x80)) as char] + DecodeFrom(rest, Initial)
  {
    assert ([x] + rest)[1..] == rest;
  }

  /** A lead byte. */
  lemma LeadStep(x: byte, rest: seq<byte>)
    requires 0xC2 <= x <= 0xF4
    ensures DecodeFrom([x] + rest, Initial) == DecodeFrom(rest, Lead(x))
  {
    assert ([x] + rest)[1..] == rest;
  }

  /** The base-64 digits of a three-byte scalar value and the lead byte's constraint on the
      first continuation byte. */
  lemma ThreeByteDigits(v: int)
    requires 0x800 <= v < 0x10000 && (v < 0xD800 || 0xE000 <= v)
    ensures 0 <= v / 4096 <= 15
    ensures v / 4096 * 64 + v / 64 % 64 == v / 64
    ensures v / 64 * 64 + v % 64 == v
    ensures v / 4096 == 0 ==> 0x20 <= v / 64 % 64
    ensures v / 4096 == 13 ==> v / 64 % 64 < 0x20
  {
  }

  /** The base-64 digits of a four-byte scalar value and the lead byte's constraint on the
      first continuation byte. */
  lemma FourByteDigits(v: int)
    requires 0x10000 <= v < 0x110000
    ensures 1 <= v / 4096 && 0 <= v / 262144 <= 4
    ensures v / 262144 * 64 + v / 4096 % 64 == v / 4096
    ensures v / 4096 * 64 + v / 64 % 64 == v / 64
    ensures v / 64 * 64 + v % 64 == v
    ensures v / 262144 == 0 ==> 0x10 <= v / 4096 % 64
    ensures v / 262144 == 4 ==> v / 4096 % 64 < 0x10
  {
  }

  lemma DecodeThreeBytes(c: char, rest: seq<byte>)
    requires 0x800 <= c as int < 0x10000
    ensures DecodeFrom(EncodeChar(c) + rest, Initial) == [c] + DecodeFrom(rest, Initial)
  {
    var v := c as int;
    ThreeByteDigits(v);
    var b0, b1, b2 := 0xE0 + v / 4096, 0x80 + v / 64 % 64, 0x80 + v % 64;
    var s1 := DecoderState(v / 4096, 2, 0, if b0 == 0xE0 then 0xA0 else 0x80, if b0 == 0xED then 0x9F else 0xBF);
    var s2 := DecoderState(v / 64, 2, 1, 0x80, 0xBF);
    assert Lead(b0) == s1;
    assert DecodeFrom(EncodeChar(c) + rest, Initial) == DecodeFrom([b1] + ([b2] + rest), s1) by {
      assert EncodeChar(c) + rest == [b0] + ([b1] + ([b2] + rest));
      LeadStep(b0, [b1] + ([b2] + rest));
    }
    assert Reachable(s2) && DecodeFrom([b1] + ([b2] + rest), s1) == DecodeFrom([b2] + rest, s2) by {
      ContinueStep(b1, [b2] + rest, s1);
    }
    assert DecodeFrom([b2] + rest, s2) == [c] + DecodeFrom(rest, Initial) by {
      FinishStep(b2, rest, s2);
    }
  }

  lemma DecodeFourBytes(c: char, rest: seq<byte>)
    requires 0x10000 <= c as int
    ensures DecodeFrom(EncodeChar(c) + rest, Initial) == [c] + DecodeFrom(rest, Initial)
  {
    var v := c as int;
    FourByteDigits(v);
    var b0: byte, b1: byte := 0xF0 + v / 262144, 0x80 + v / 4096 % 64;
    var tail: seq<byte> := [0x80 + v / 64 % 64] + ([0x80 + v % 64] + rest);
    var s1 := DecoderState(v / 262144, 3, 0, if b0 == 0xF0 then 0x90 else 0x80, if b0 == 0xF4 then 0x8F else 0xBF);
    var s2 := DecoderState(v / 4096, 3, 1, 0x80, 0xBF);
    assert Lead(b0) == s1;
    assert DecodeFrom(EncodeChar(c) + rest, Initial) == DecodeFrom([b1] + tail, s1) by {
      assert EncodeChar(c) + rest == [b0] + ([b1] + tail);
      LeadStep(b0, [b1] + tail);
    }
    assert DecodeFrom([b1] + tail, s1) == DecodeFrom(tail, s2) by {
      ContinueStep(b1, tail, s1);
    }
    DecodeLastTwo(c, rest);
  }

  /** The last two bytes of a four-byte form, after the lead and the first continuation. */
  lemma DecodeLastTwo(c: char, rest: seq<byte>)
    requires 0x10000 <= c as int
    ensures var v := c as int;
      var s2 := DecoderState(v / 4096, 3, 1, 0x80, 0xBF);
      && Reachable(s2)
      && DecodeFrom([0x80 + v / 64 % 64] + ([0x80 + v % 64] + rest), s2) == [c] + DecodeFrom(rest, Initial)
  {
    var v := c as int;
    FourByteDigits(v);
    var b2: byte, b3: byte := 0x80 + v / 64 % 64, 0x80 + v % 64;
    var s2 := DecoderState(v / 4096, 3, 1, 0x80, 0xBF);
    var s3 := DecoderState(v / 64, 3, 2, 0x80, 0xBF);
    assert Reachable(s2);
    assert Reachable(s3) && DecodeFrom([b2] + ([b3] + rest), s2) == DecodeFrom([b3] + rest, s3) by {
      ContinueStep(b2, [b3] + rest, s2);
    }
    FinishStep(b3, rest, s3);
  }

  /** UTF-8 decoding inverts UTF-8 encoding on every string. */
  lemma {:induction false} DecodeEncode(s: string)
    ensures DecodeFrom(Encode(s), Initial) == s
  {
    if |s| > 0 {
      DecodeEncode(s[1..]);
      DecodeEncodeChar(s[0], Encode(s[1..]));
      assert [s[0]] + s[1..] == s;
    }
  }

  /** `new TextDecoder().decode(new TextEncoder().encode(s))` returns `s` exactly when `s` does
      not begin with U+FEFF; otherwise that first character is lost. */
  lemma TextRoundTrip(s: string)
    ensures TextDecode(Encode(s), true) == s
    ensures TextDecode(Encode(s), false) == s <==> !StartsWithBom(s)
    ensures StartsWithBom(s) ==> TextDecode(Encode(s), false) == s[1..]
  {
    DecodeEncode(s);
  }
}
