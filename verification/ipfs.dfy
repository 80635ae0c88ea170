/**
 * The mock content-address generator of `home/src/utils/ipfs.ts`: random bytes mapped into a
 * 58-character alphabet, prefixed with `Qm`. The random bytes are a parameter.
 */
module Ipfs {
  import opened Wrappers

  /** `IPFS_ALPHABET`: the Bitcoin base58 alphabet, written as its six runs of consecutive
      characters (the concatenation spells the source's string). */
  const Alphabet: string := "123456789" + "ABCDEFGH" + "JKLMN" + "PQRSTUVWXYZ" + "abcdefghijk" + "mnopqrstuvwxyz"

  const HashPrefix: string := "Qm"
  /** `mockIpfsUpload` asks for 44 random characters. */
  const RandomLength: nat := 44

  /** The characters of base58, stated independently of the alphabet string: digits without
      `0`, capitals without `I` and `O`, small letters without `l`. */
  predicate IsBase58Char(c: char) {
    || ('1' <= c <= '9')
    || ('A' <= c <= 'Z' && c != 'I' && c != 'O')
    || ('a' <= c <= 'z' && c != 'l')
  }

  /** `n` consecutive characters starting at `first`. */
  function Run(first: char, n: nat): (s: string)
    requires first as int + n < 0xD800
    ensures |s| == n
    ensures forall i :: 0 <= i < n ==> s[i] as int == first as int + i
  {
    seq(n, i requires 0 <= i < n => (first as int + i) as char)
  }

  /** The code of the alphabet's character at position `i`. */
  function CodeAt(i: int): int {
    if i < 9 then 49 + i
    else if i < 17 then 65 + i - 9
    else if i < 22 then 74 + i - 17
    else if i < 33 then 80 + i - 22
    else if i < 44 then 97 + i - 33
    else 109 + i - 44
  }

  lemma AlphabetRuns()
    ensures Alphabet == Run('1', 9) + Run('A', 8) + Run('J', 5) + Run('P', 11) + Run('a', 11) + Run('m', 14)
  {
    assert Run('1', 9) == "123456789";
    assert Run('A', 8) == "ABCDEFGH";
    assert Run('J', 5) == "JKLMN";
    assert Run('P', 11) == "PQRSTUVWXYZ";
    assert Run('a', 11) == "abcdefghijk";
    assert Run('m', 14) == "mnopqrstuvwxyz";
  }

  lemma AlphabetCodes()
    ensures |Alphabet| == 58
    ensures forall i :: 0 <= i < 58 ==> Alphabet[i] as int == CodeAt(i)
  {
    AlphabetRuns();
  }

  /** The alphabet is strictly increasing, so its 58 characters are distinct. */
  lemma AlphabetDistinct()
    ensures |Alphabet| == 58
    ensures forall i, j :: 0 <= i < j < |Alphabet| ==> Alphabet[i] < Alphabet[j]
  {
    AlphabetCodes();
  }

  /** The alphabet holds exactly the base58 characters; in particular none of the look-alikes
      `0`, `O`, `I`, `l`. */
  lemma AlphabetMembers(c: char)
    ensures c in Alphabet <==> IsBase58Char(c)
    ensures c in "0OIl" ==> c !in Alphabet
  {
    AlphabetCodes();
    var v := c as int;
    if IsBase58Char(c) {
      var i :=
        if v <= 57 then v - 49
        else if v <= 72 then v - 65 + 9
        else if v <= 78 then v - 74 + 17
        else if v <= 90 then v - 80 + 22
        else if v <= 107 then v - 97 + 33
        else v - 109 + 44;
      assert Alphabet[i] as int == v;
    }
    if c in Alphabet {
      var i :| 0 <= i < |Alphabet| && Alphabet[i] == c;
      assert v == CodeAt(i);
    }
  }

  /** `base58Random(length)`, with the `length` random bytes as a parameter: character `i` is
      the alphabet entry at `bytes[i] % 58`. */
  function Base58Random(bytes: seq<byte>): (out: string)
    ensures |out| == |bytes|
    ensures forall i :: 0 <= i < |bytes| ==> out[i] == Alphabet[bytes[i] % |Alphabet|]
  {
    if |bytes| == 0 then ""
    else Base58Random(bytes[..|bytes| - 1]) + [Alphabet[bytes[|bytes| - 1] % |Alphabet|]]
  }

  lemma AlphabetEntry(k: nat)
    requires k < 58
    ensures |Alphabet| == 58 && IsBase58Char(Alphabet[k])
  {
    AlphabetCodes();
  }

  /** Every generated character is a base58 character. */
  lemma Base58RandomInAlphabet(bytes: seq<byte>)
    ensures forall i :: 0 <= i < |bytes| ==> IsBase58Char(Base58Random(bytes)[i])
  {
    var out := Base58Random(bytes);
    forall i | 0 <= i < |bytes| ensures IsBase58Char(out[i]) {
      AlphabetEntry(0);
      AlphabetEntry(bytes[i] % 58);
    }
  }

  /** The hash `mockIpfsUpload` returns, from its 44 random bytes. */
  function MockIpfsHash(bytes: seq<byte>): (hash: string)
    requires |bytes| == RandomLength
    ensures |hash| == 46
    ensures hash[..2] == "Qm"
    ensures forall i :: 2 <= i < |hash| ==> IsBase58Char(hash[i])
  {
    Base58RandomInAlphabet(bytes);
    HashPrefix + Base58Random(bytes)
  }
}
