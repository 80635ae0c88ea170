/**
 * The address-keyed cipher of `home/src/utils/crypto.ts`: a symmetric key derived from an
 * address string, AES-GCM encryption of a short text, and the versioned payload
 * `"v1:" + base64(iv) + ":" + base64(ciphertext)`.
 *
 * SHA-256 (FIPS 180-4) and AES-GCM (NIST SP 800-38D) are not modelled: they are the fields of
 * a `CipherSuite`, and `AeadCorrect` states the one property the round trip needs of them.
 */
module AddressCipher {
  import opened Wrappers
  import Base64
  import Utf8
  import Text

  const IvLength: nat := 12
  /** AES-GCM appends a 128-bit authentication tag (the WebCrypto default `tagLength`). */
  const TagLength: nat := 16
  const Version: string := "v1"
  const Separator: char := ':'

  datatype AesKey = AesKey(raw: seq<byte>)

  /** The WebCrypto primitives the module calls. */
  datatype CipherSuite = CipherSuite(
    /** `crypto.subtle.digest('SHA-256', ·)` */
    digest: seq<byte> -> seq<byte>,
    /** `crypto.subtle.encrypt({name: 'AES-GCM', iv}, key, ·)`: ciphertext followed by the tag */
    seal: (AesKey, seq<byte>, seq<byte>) -> seq<byte>,
    /** `crypto.subtle.decrypt`; `None` is the `OperationError` raised when the tag does not verify */
    open: (AesKey, seq<byte>, seq<byte>) -> Option<seq<byte>>)

  /** AES-GCM decryption under the key and iv used to encrypt returns the plaintext, and the
      ciphertext is the plaintext's length plus the tag. */
  ghost predicate AeadCorrect(cs: CipherSuite) {
    forall k: AesKey, iv: seq<byte>, p: seq<byte> ::
      cs.open(k, iv, cs.seal(k, iv, p)) == Some(p) && |cs.seal(k, iv, p)| == |p| + TagLength
  }

  datatype DecryptError =
    | FormatError      // 'Invalid encrypted payload format'
    | InvalidBase64    // `atob` throws InvalidCharacterError
    | CipherRejected   // AES-GCM decryption throws OperationError

  /** The loop of `toBase64` that appends `String.fromCharCode(bytes[i])` for each byte. */
  function BinaryOf(bytes: seq<byte>): (binary: string)
    ensures |binary| == |bytes|
    ensures forall i :: 0 <= i < |bytes| ==> binary[i] as int == bytes[i]
  {
    if |bytes| == 0 then "" else BinaryOf(bytes[..|bytes| - 1]) + [bytes[|bytes| - 1] as char]
  }

  /** The loop of `fromBase64` that stores `binary.charCodeAt(i)` into a `Uint8Array`
      (the store keeps the low eight bits). */
  function BytesOf(binary: string): (bytes: seq<byte>)
    ensures |bytes| == |binary|
    ensures forall i :: 0 <= i < |binary| ==> bytes[i] == binary[i] as int % 256
  {
    if |binary| == 0 then [] else BytesOf(binary[..|binary| - 1]) + [binary[|binary| - 1] as int % 256]
  }

  /** `toBase64`: `btoa` of the binary string never throws and yields the standard encoding. */
  function ToBase64(bytes: seq<byte>): (s: string)
    ensures Base64.Btoa(BinaryOf(bytes)) == Some(s)
    ensures Separator !in s
  {
    var binary := BinaryOf(bytes);
    assert seq(|binary|, i requires 0 <= i < |binary| => binary[i] as int) == bytes;
    Base64.Encode(bytes)
  }

  /** `fromBase64`: `atob` followed by the char-code loop. */
  function FromBase64(value: string): (r: Result<seq<byte>, DecryptError>)
    ensures r.Failure? <==> Base64.ForgivingDecode(value).None?
    ensures r.Failure? ==> r.error == InvalidBase64
  {
    match Base64.Atob(value)
    case None => Failure(InvalidBase64)
    case Some(binary) => Success(BytesOf(binary))
  }

  /** The byte-to-character and character-to-byte loops with `btoa`/`atob` between them
      give back every byte. */
  lemma Base64RoundTrip(bytes: seq<byte>)
    ensures FromBase64(ToBase64(bytes)) == Success(bytes)
  {
    var encoded := ToBase64(bytes);
    assert encoded == Base64.Encode(bytes);
    Base64.DecodeEncode(bytes);
    var binary := seq(|bytes|, i requires 0 <= i < |bytes| => bytes[i] as char);
    assert Base64.Atob(encoded) == Some(binary);
    BytesOfLatin1(bytes, binary);
  }

  lemma BytesOfLatin1(bytes: seq<byte>, binary: string)
    requires |binary| == |bytes|
    requires forall i :: 0 <= i < |bytes| ==> binary[i] as int == bytes[i]
    ensures BytesOf(binary) == bytes
  {
  }

  /** `deriveKey`: the lowercased address, UTF-8 encoded and hashed, is the raw AES key. */
  function DeriveKey(cs: CipherSuite, address: string): (key: AesKey)
  {
    AesKey(cs.digest(Utf8.Encode(Text.ToLower(address))))
  }

  /** Addresses that differ only in letter case derive the same key. */
  lemma DeriveKeyIgnoresCase(cs: CipherSuite, a: string, b: string)
    requires Text.SameIgnoringCase(a, b)
    ensures DeriveKey(cs, a) == DeriveKey(cs, b)
  {
    Text.ToLowerIdentifiesCase(a, b);
  }

  /** `encryptWithAddress`, with the 12 random bytes of the iv as a parameter. */
  function EncryptWithAddress(cs: CipherSuite, address: string, plaintext: string, iv: seq<byte>): (payload: string)
    requires |iv| == IvLength
    ensures |payload| > 3 && payload[..3] == "v1:"
  {
    var key := DeriveKey(cs, address);
    var encrypted := cs.seal(key, iv, Utf8.Encode(plaintext));
    Version + [Separator] + ToBase64(iv) + [Separator] + ToBase64(encrypted)
  }

  /** JavaScript truthiness of a destructured `string | undefined`: present and non-empty. */
  predicate Truthy(field: Option<string>) {
    field.Some? && field.value != ""
  }

  /** The part of `decryptWithAddress` before any key is derived: split on `':'`, take the
      first three segments, and require version `v1` and two non-empty fields. */
  function ParsePayload(payload: string): (r: Result<(string, string), DecryptError>)
    ensures r.Failure? ==> r.error == FormatError
    ensures r.Success? ==> r.value.0 != "" && r.value.1 != ""
    ensures r.Success? ==> Separator !in r.value.0 && Separator !in r.value.1
  {
    var parts := Text.Split(payload, Separator);
    var version := parts[0];
    var ivField := if |parts| > 1 then Some(parts[1]) else None;
    var dataField := if |parts| > 2 then Some(parts[2]) else None;
    if version != Version || !Truthy(ivField) || !Truthy(dataField) then Failure(FormatError)
    else Success((ivField.value, dataField.value))
  }

  /** `payload` begins with `v1:a:b` and either ends there or goes on with another `':'`. */
  predicate Framed(payload: string, a: string, b: string) {
    var head := Version + [Separator] + a + [Separator] + b;
    && |head| <= |payload|
    && payload[..|head|] == head
    && (|payload| == |head| || payload[|head|] == Separator)
  }

  /** The format check accepts exactly the payloads `v1:a:b`, optionally followed by further
      `':'`-separated segments, whose fields `a` and `b` are non-empty; it then returns
      those two fields. */
  lemma ParsePayloadAccepts(payload: string, a: string, b: string)
    ensures ParsePayload(payload) == Success((a, b)) <==>
      (a != "" && b != "" && Separator !in a && Separator !in b && Framed(payload, a, b))
  {
    if a != "" && b != "" && Separator !in a && Separator !in b && Framed(payload, a, b) {
      var head := Version + [Separator] + a + [Separator] + b;
      var rest := payload[|head|..];
      assert payload == head + rest;
      SplitFramed(a, b, rest);
    }
    if ParsePayload(payload) == Success((a, b)) {
      var parts := Text.Split(payload, Separator);
      Text.JoinSplit(payload, Separator);
      JoinThree(parts);
    }
  }

  /** Segments after the third are ignored: `v1:a:b:` followed by anything parses to the
      fields `a` and `b`. */
  lemma ExtraSegmentsIgnored(a: string, b: string, rest: string)
    requires a != "" && b != "" && Separator !in a && Separator !in b
    ensures ParsePayload(Version + [Separator] + a + [Separator] + b + [Separator] + rest) == Success((a, b))
  {
    var head := Version + [Separator] + a + [Separator] + b;
    var payload := head + [Separator] + rest;
    assert payload[..|head|] == head;
    assert payload[|head|] == Separator;
    ParsePayloadAccepts(payload, a, b);
  }

  /** A wrong version, an empty field and a missing field are each a format error. */
  lemma MalformedExamples()
    ensures ParsePayload("v2:a:b") == Failure(FormatError)
    ensures ParsePayload("v1::b") == Failure(FormatError)
    ensures ParsePayload("v1:a:") == Failure(FormatError)
    ensures ParsePayload("v1:a") == Failure(FormatError)
  {
    assert Text.Split("v2:a:b", Separator)[0] == "v2";
    assert Text.Split("v1::b", Separator)[1] == "";
    assert Text.Split("v1:a:", Separator)[2] == "";
    assert |Text.Split("v1:a", Separator)| == 2;
  }

  /** Joining three or more pieces starts with the first three and their separators. */
  lemma JoinThree(parts: seq<string>)
    requires |parts| >= 3
    ensures var head := parts[0] + [Separator] + parts[1] + [Separator] + parts[2];
      var joined := Text.Join(parts, Separator);
      && |head| <= |joined|
      && joined[..|head|] == head
      && (|joined| == |head| || joined[|head|] == Separator)
  {
    var sep := Separator;
    var tail := Text.Join(parts[2..], sep);
    assert parts[1..][1..] == parts[2..];
    assert Text.Join(parts, sep) == parts[0] + [sep] + (parts[1] + [sep] + tail);
    if |parts| == 3 {
      assert tail == parts[2];
    } else {
      assert parts[2..][1..] == parts[3..];
      assert tail == parts[2] + [sep] + Text.Join(parts[3..], sep);
    }
  }

  /** Splitting `v1:a:b` followed by nothing or by `':'` gives `v1`, `a` and `b` first. */
  lemma SplitFramed(a: string, b: string, rest: string)
    requires Separator !in a && Separator !in b
    requires rest == [] || rest[0] == Separator
    ensures var parts := Text.Split(Version + [Separator] + a + [Separator] + b + rest, Separator);
      |parts| >= 3 && parts[0] == Version && parts[1] == a && parts[2] == b
  {
    var sep := Separator;
    var t := b + rest;
    assert Version + [sep] + a + [sep] + b + rest == Version + [sep] + (a + [sep] + t);
    Text.SplitPrefix(Version, sep, a + [sep] + t);
    Text.SplitPrefix(a, sep, t);
    SplitFirstPiece(b, rest);
  }

  lemma SplitFirstPiece(b: string, rest: string)
    requires Separator !in b
    requires rest == [] || rest[0] == Separator
    ensures Text.Split(b + rest, Separator)[0] == b
  {
    if rest == [] {
      assert b + rest == b;
      Text.SplitNone(b, Separator);
    } else {
      assert b + rest == b + [Separator] + rest[1..];
      Text.SplitPrefix(b, Separator, rest[1..]);
    }
  }

  /** A payload built by `encryptWithAddress` splits into exactly three segments (so it holds
      exactly two separators): the version, the base64 of the 12-byte iv (16 characters),
      and the base64 of the ciphertext. */
  lemma EncryptedPayloadShape(cs: CipherSuite, address: string, plaintext: string, iv: seq<byte>)
    requires |iv| == IvLength
    ensures var key := DeriveKey(cs, address);
      var encrypted := cs.seal(key, iv, Utf8.Encode(plaintext));
      && Text.Split(EncryptWithAddress(cs, address, plaintext, iv), Separator)
           == [Version, ToBase64(iv), ToBase64(encrypted)]
      && |ToBase64(iv)| == 16
  {
    var key := DeriveKey(cs, address);
    var encrypted := cs.seal(key, iv, Utf8.Encode(plaintext));
    Text.SplitThree(Version, Separator, ToBase64(iv), ToBase64(encrypted));
  }

  /** `decryptWithAddress` with the decoder's BOM handling as a parameter: the source's
      `new TextDecoder()` has `ignoreBom` false. The stages run in order, and the error names
      the first that fails: `FormatError` for the format check, `InvalidBase64` for `atob` of
      either field, `CipherRejected` for AES-GCM decryption under the derived key. */
  function Decrypt(cs: CipherSuite, address: string, payload: string, ignoreBom: bool): (r: Result<string, DecryptError>)
    ensures r == Failure(FormatError) <==> ParsePayload(payload).Failure?
    ensures var fields := ParsePayload(payload);
      r == Failure(InvalidBase64) <==>
        fields.Success? && (FromBase64(fields.value.0).Failure? || FromBase64(fields.value.1).Failure?)
    ensures var fields := ParsePayload(payload);
      r == Failure(CipherRejected) <==>
        && fields.Success?
        && FromBase64(fields.value.0).Success? && FromBase64(fields.value.1).Success?
        && cs.open(DeriveKey(cs, address), FromBase64(fields.value.0).value, FromBase64(fields.value.1).value).None?
    ensures var fields := ParsePayload(payload);
      r.Success? <==>
        && fields.Success?
        && FromBase64(fields.value.0).Success? && FromBase64(fields.value.1).Success?
        && cs.open(DeriveKey(cs, address), FromBase64(fields.value.0).value, FromBase64(fields.value.1).value).Some?
  {
    match ParsePayload(payload)
    case Failure(e) => Failure(e)
    case Success(fields) =>
      var key := DeriveKey(cs, address);
      match FromBase64(fields.0)
      case Failure(e) => Failure(e)
      case Success(iv) =>
        match FromBase64(fields.1)
        case Failure(e) => Failure(e)
        case Success(data) =>
          match cs.open(key, iv, data)
          case None => Failure(CipherRejected)
          case Some(plain) => Success(Utf8.TextDecode(plain, ignoreBom))
  }

  /** A payload that fails the format check never reaches key derivation or the cipher: the
      result is the same format error whatever the cipher suite and the address. */
  lemma MalformedNeverReachesCipher(cs1: CipherSuite, cs2: CipherSuite, a1: string, a2: string,
                                    payload: string, ignoreBom: bool)
    requires ParsePayload(payload).Failure?
    ensures Decrypt(cs1, a1, payload, ignoreBom) == Decrypt(cs2, a2, payload, ignoreBom) == Failure(FormatError)
  {
  }

  /** `decryptWithAddress` as written. */
  function DecryptWithAddress(cs: CipherSuite, address: string, payload: string): (r: Result<string, DecryptError>)
    ensures r == Failure(FormatError) <==> ParsePayload(payload).Failure?
  {
    Decrypt(cs, address, payload, false)
  }

  /** `decryptWithAddress` with `new TextDecoder('utf-8', { ignoreBOM: true })`. */
  function DecryptWithAddressIgnoreBom(cs: CipherSuite, address: string, payload: string): (r: Result<string, DecryptError>)
    ensures r == Failure(FormatError) <==> ParsePayload(payload).Failure?
  {
    Decrypt(cs, address, payload, true)
  }

  /** The format check passes a payload built by `encryptWithAddress` and returns its two
      base64 fields: neither is empty (the iv has 12 bytes, the ciphertext at least the tag). */
  lemma ParseEncrypted(cs: CipherSuite, address: string, plaintext: string, iv: seq<byte>)
    requires AeadCorrect(cs)
    requires |iv| == IvLength
    ensures var encrypted := cs.seal(DeriveKey(cs, address), iv, Utf8.Encode(plaintext));
      ParsePayload(EncryptWithAddress(cs, address, plaintext, iv)) == Success((ToBase64(iv), ToBase64(encrypted)))
  {
    var message := Utf8.Encode(plaintext);
    var encrypted := cs.seal(DeriveKey(cs, address), iv, message);
    assert |encrypted| == |message| + TagLength;
    var f1, f2 := ToBase64(iv), ToBase64(encrypted);
    var payload := EncryptWithAddress(cs, address, plaintext, iv);
    assert payload == Version + [Separator] + f1 + [Separator] + f2 + [];
    SplitFramed(f1, f2, []);
  }

  /** Decrypting a payload produced by `encryptWithAddress`, under any spelling of the same
      address, hands the decoder exactly the UTF-8 bytes of the plaintext. */
  lemma DecryptOfEncrypt(cs: CipherSuite, a: string, b: string, plaintext: string, iv: seq<byte>, ignoreBom: bool)
    requires AeadCorrect(cs)
    requires |iv| == IvLength
    requires Text.SameIgnoringCase(a, b)
    ensures Decrypt(cs, b, EncryptWithAddress(cs, a, plaintext, iv), ignoreBom)
              == Success(Utf8.TextDecode(Utf8.Encode(plaintext), ignoreBom))
  {
    var key := DeriveKey(cs, a);
    var message := Utf8.Encode(plaintext);
    var encrypted := cs.seal(key, iv, message);
    ParseEncrypted(cs, a, plaintext, iv);
    Base64RoundTrip(iv);
    Base64RoundTrip(encrypted);
    DeriveKeyIgnoresCase(cs, a, b);
    assert cs.open(key, iv, encrypted) == Some(message);
  }

  /** Round trip of the corrected decoder: every plaintext, the empty one included, comes
      back exactly, also when the address is given in a different letter case. */
  lemma RoundTrip(cs: CipherSuite, a: string, b: string, plaintext: string, iv: seq<byte>)
    requires AeadCorrect(cs)
    requires |iv| == IvLength
    requires Text.SameIgnoringCase(a, b)
    ensures DecryptWithAddressIgnoreBom(cs, b, EncryptWithAddress(cs, a, plaintext, iv)) == Success(plaintext)
  {
    DecryptOfEncrypt(cs, a, b, plaintext, iv, true);
    Utf8.TextRoundTrip(plaintext);
  }

  /** Round trip of the source as written: the plaintext comes back exactly when it does not
      begin with U+FEFF; a leading U+FEFF is dropped by the default `TextDecoder`. */
  lemma RoundTripAsWritten(cs: CipherSuite, a: string, b: string, plaintext: string, iv: seq<byte>)
    requires AeadCorrect(cs)
    requires |iv| == IvLength
    requires Text.SameIgnoringCase(a, b)
    ensures (DecryptWithAddress(cs, b, EncryptWithAddress(cs, a, plaintext, iv)) == Success(plaintext))
              <==> !Utf8.StartsWithBom(plaintext)
    ensures Utf8.StartsWithBom(plaintext) ==>
              DecryptWithAddress(cs, b, EncryptWithAddress(cs, a, plaintext, iv)) == Success(plaintext[1..])
  {
    DecryptOfEncrypt(cs, a, b, plaintext, iv, false);
    Utf8.TextRoundTrip(plaintext);
  }

  /** The concrete input that breaks the round trip as written: the one-character text
      U+FEFF decrypts to the empty string. */
  lemma ByteOrderMarkIsLost(cs: CipherSuite, address: string, iv: seq<byte>)
    requires AeadCorrect(cs)
    requires |iv| == IvLength
    ensures DecryptWithAddress(cs, address, EncryptWithAddress(cs, address, [Utf8.ByteOrderMark], iv)) == Success("")
  {
    assert Text.SameIgnoringCase(address, address);
    RoundTripAsWritten(cs, address, address, [Utf8.ByteOrderMark], iv);
  }
}
