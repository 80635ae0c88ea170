/**
 * The platform's `btoa` / `atob` pair: standard base64 with padding (section 4 of RFC 4648)
 * on the way out, the WHATWG "forgiving-base64 decode" on the way back in (ASCII whitespace
 * is dropped, padding is optional, leftover bits are discarded).
 */
module Base64 {
  import opened Wrappers

  /** A 6-bit group, the value one base64 character stands for. */
  type sextet = x: int | 0 <= x < 64

  /** The 64 characters of the base64 alphabet, in value order. */
  predicate IsAlphabetChar(c: char) {
    ('A' <= c <= 'Z') || ('a' <= c <= 'z') || ('0' <= c <= '9') || c == '+' || c == '/'
  }

  function CharOf(v: sextet): (c: char)
    ensures IsAlphabetChar(c)
  {
    if v < 26 then (65 + v) as char
    else if v < 52 then (97 + v - 26) as char
    else if v < 62 then (48 + v - 52) as char
    else if v == 62 then '+'
    else '/'
  }

  function ValueOf(c: char): (v: sextet)
    requires IsAlphabetChar(c)
    ensures CharOf(v) == c
  {
    if 'A' <= c <= 'Z' then c as int - 65
    else if 'a' <= c <= 'z' then c as int - 97 + 26
    else if '0' <= c <= '9' then c as int - 48 + 52
    else if c == '+' then 62
    else 63
  }

  lemma ValueOfCharOf(v: sextet)
    ensures ValueOf(CharOf(v)) == v
  {
  }

  /** Splits bytes into 6-bit groups, three bytes to four groups; a trailing one or two bytes
      give two or three groups whose low bits are zero. */
  function EncodeSextets(b: seq<byte>): (q: seq<sextet>)
    ensures |q| == |b| / 3 * 4 + (if |b| % 3 == 0 then 0 else |b| % 3 + 1)
    ensures |q| % 4 != 1
    decreases |b|
  {
    if |b| == 0 then []
    else
      var b0: int := b[0];
      if |b| == 1 then [b0 / 4, b0 % 4 * 16]
      else
        var b1: int := b[1];
        if |b| == 2 then [b0 / 4, b0 % 4 * 16 + b1 / 16, b1 % 16 * 4]
        else
          var b2: int := b[2];
          [b0 / 4, b0 % 4 * 16 + b1 / 16, b1 % 16 * 4 + b2 / 64, b2 % 64] + EncodeSextets(b[3..])
  }

  /** Reassembles bytes from 6-bit groups; a trailing two or three groups give one or two
      bytes and their leftover low bits are discarded. */
  function DecodeSextets(q: seq<sextet>): (b: seq<byte>)
    requires |q| % 4 != 1
    ensures |b| == |q| * 3 / 4
    decreases |q|
  {
    if |q| == 0 then []
    else
      var q0, q1: int := q[0], q[1];
      if |q| == 2 then [q0 * 4 + q1 / 16]
      else
        var q2: int := q[2];
        if |q| == 3 then [q0 * 4 + q1 / 16, q1 % 16 * 16 + q2 / 4]
        else [q0 * 4 + q1 / 16, q1 % 16 * 16 + q2 / 4, q2 % 4 * 64 + q[3]] + DecodeSextets(q[4..])
  }

  function Chars(q: seq<sextet>): (s: string)
    ensures |s| == |q|
    ensures AllAlphabet(s)
  {
    seq(|q|, i requires 0 <= i < |q| => CharOf(q[i]))
  }

  function Values(s: string): (q: seq<sextet>)
    requires forall i :: 0 <= i < |s| ==> IsAlphabetChar(s[i])
    ensures |q| == |s|
  {
    seq(|s|, i requires 0 <= i < |s| => ValueOf(s[i]))
  }

  /** The `=` characters that complete the last group of four. */
  function Padding(n: nat): string {
    if n % 3 == 1 then "==" else if n % 3 == 2 then "=" else ""
  }

  /** Standard base64 of a byte sequence, padded to a multiple of four characters. */
  function Encode(b: seq<byte>): (s: string)
    ensures |s| == (|b| + 2) / 3 * 4
    ensures forall i :: 0 <= i < |s| ==> IsAlphabetChar(s[i]) || s[i] == '='
  {
    Chars(EncodeSextets(b)) + Padding(|b|)
  }

  /** ASCII whitespace as the WHATWG infra standard defines it: TAB, LF, FF, CR, SPACE. */
  predicate IsAsciiWhitespace(c: char) {
    c == '\t' || c == '\n' || c as int == 12 || c == '\r' || c == ' '
  }

  function RemoveWhitespace(s: string): (r: string)
    ensures |r| <= |s|
    ensures forall i :: 0 <= i < |r| ==> !IsAsciiWhitespace(r[i])
  {
    if |s| == 0 then []
    else (if IsAsciiWhitespace(s[0]) then [] else [s[0]]) + RemoveWhitespace(s[1..])
  }

  /** When the length is a multiple of four, one or two trailing `=` are removed. */
  function StripPadding(d: string): string {
    if |d| % 4 == 0 && |d| >= 2 && d[|d| - 2..] == "==" then d[..|d| - 2]
    else if |d| % 4 == 0 && |d| >= 1 && d[|d| - 1] == '=' then d[..|d| - 1]
    else d
  }

  predicate AllAlphabet(s: string) {
    forall i :: 0 <= i < |s| ==> IsAlphabetChar(s[i])
  }

  /** The forgiving-base64 decode of the WHATWG infra standard; `None` is the failure that
      makes `atob` throw an `InvalidCharacterError`. */
  function ForgivingDecode(s: string): (r: Option<seq<byte>>)
  {
    var d := StripPadding(RemoveWhitespace(s));
    if |d| % 4 == 1 || !AllAlphabet(d) then None
    else Some(DecodeSextets(Values(d)))
  }

  lemma {:induction false} RemoveWhitespaceKeeps(s: string)
    requires forall i :: 0 <= i < |s| ==> !IsAsciiWhitespace(s[i])
    ensures RemoveWhitespace(s) == s
  {
    if |s| > 0 {
      RemoveWhitespaceKeeps(s[1..]);
      assert [s[0]] + s[1..] == s;
    }
  }

  /** One full group: three bytes survive the trip through four sextets. */
  lemma GroupRoundTrip(b0: int, b1: int, b2: int)
    requires 0 <= b0 < 256 && 0 <= b1 < 256 && 0 <= b2 < 256
    ensures var q0, q1, q2, q3 := b0 / 4, b0 % 4 * 16 + b1 / 16, b1 % 16 * 4 + b2 / 64, b2 % 64;
      && q0 * 4 + q1 / 16 == b0
      && q1 % 16 * 16 + q2 / 4 == b1
      && q2 % 4 * 64 + q3 == b2
  {
  }

  /** Decoding a leading group of four sextets. */
  lemma DecodeGroup(q0: sextet, q1: sextet, q2: sextet, q3: sextet, rest: seq<sextet>)
    requires |rest| % 4 != 1 && |[q0, q1, q2, q3] + rest| % 4 != 1
    ensures DecodeSextets([q0, q1, q2, q3] + rest)
              == [q0 * 4 + q1 / 16, q1 % 16 * 16 + q2 / 4, q2 % 4 * 64 + q3] + DecodeSextets(rest)
  {
    var q := [q0, q1, q2, q3] + rest;
    assert q[0] == q0 && q[1] == q1 && q[2] == q2 && q[3] == q3;
    assert q[4..] == rest;
  }

  lemma {:induction false} DecodeEncodeSextets(b: seq<byte>)
    ensures DecodeSextets(EncodeSextets(b)) == b
    decreases |b|
  {
    if |b| >= 3 {
      var b0, b1, b2: int := b[0], b[1], b[2];
      var rest := EncodeSextets(b[3..]);
      var q0, q1, q2, q3 := b0 / 4, b0 % 4 * 16 + b1 / 16, b1 % 16 * 4 + b2 / 64, b2 % 64;
      assert EncodeSextets(b) == [q0, q1, q2, q3] + rest;
      assert DecodeSextets(EncodeSextets(b)) == [b0, b1, b2] + DecodeSextets(rest) by {
        DecodeGroup(q0, q1, q2, q3, rest);
        GroupRoundTrip(b0, b1, b2);
      }
      DecodeEncodeSextets(b[3..]);
      assert b == [b0, b1, b2] + b[3..];
    } else if |b| > 0 {
      GroupRoundTrip(b[0], if |b| == 2 then b[1] else 0, 0);
    }
  }

  /** Padding after a run of alphabet characters is exactly what `StripPadding` removes. */
  lemma StripPaddingAfter(c: string, pad: string)
    requires pad == "" || pad == "=" || pad == "=="
    requires AllAlphabet(c)
    requires (|c| + |pad|) % 4 == 0
    ensures StripPadding(c + pad) == c
  {
    var d := c + pad;
    if pad == "==" {
      assert d[|d| - 2..] == "==";
      assert d[..|d| - 2] == c;
    } else if pad == "=" {
      assert d[|d| - 2] == c[|c| - 1];
      assert d[..|d| - 1] == c;
    } else if |c| > 0 {
      assert d == c;
      assert IsAlphabetChar(c[|c| - 1]);
    }
  }

  lemma StripPaddingOfEncode(b: seq<byte>)
    ensures StripPadding(Encode(b)) == Chars(EncodeSextets(b))
  {
    var n, r := |b| / 3, |b| % 3;
    var c, pad := Chars(EncodeSextets(b)), Padding(|b|);
    assert |c| == n * 4 + (if r == 0 then 0 else r + 1);
    assert |c| + |pad| == (if r == 0 then n else n + 1) * 4;
    StripPaddingAfter(c, pad);
  }

  lemma ValuesOfChars(q: seq<sextet>)
    ensures AllAlphabet(Chars(q)) && Values(Chars(q)) == q
  {
    forall i | 0 <= i < |q| ensures ValueOf(CharOf(q[i])) == q[i] {
      ValueOfCharOf(q[i]);
    }
  }

  /** `atob(btoa(x))` gives back `x`: decoding an encoding recovers exactly the bytes. */
  lemma DecodeEncode(b: seq<byte>)
    ensures ForgivingDecode(Encode(b)) == Some(b)
  {
    var q := EncodeSextets(b);
    var s := Encode(b);
    var d := Chars(q);
    assert RemoveWhitespace(s) == s by { RemoveWhitespaceKeeps(s); }
    assert StripPadding(s) == d by { StripPaddingOfEncode(b); }
    assert AllAlphabet(d) && Values(d) == q by { ValuesOfChars(q); }
    assert DecodeSextets(q) == b by { DecodeEncodeSextets(b); }
  }

  /** `btoa`: a string whose code units all fit in a byte is encoded; any other string makes
      it throw (`None`). */
  function Btoa(binary: string): (r: Option<string>)
    ensures r.Some? <==> forall i :: 0 <= i < |binary| ==> binary[i] as int < 256
  {
    if forall i :: 0 <= i < |binary| ==> binary[i] as int < 256
    then Some(Encode(seq(|binary|, i requires 0 <= i < |binary| => binary[i] as int)))
    else None
  }

  /** `atob`: the decoded bytes as a string of code units below 256. */
  function Atob(s: string): (r: Option<string>)
    ensures r.Some? <==> ForgivingDecode(s).Some?
    ensures r.Some? ==> forall i :: 0 <= i < |r.value| ==> r.value[i] as int < 256
  {
    match ForgivingDecode(s)
    case None => None
    case Some(b) => Some(seq(|b|, i requires 0 <= i < |b| => b[i] as char))
  }
}
