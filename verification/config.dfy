/** The deployment check both panels make before touching the vault. */
module Config {
  import Text

  /** `n` copies of `c`. */
  function Repeat(c: char, n: nat): (s: string)
    ensures |s| == n
    ensures forall i :: 0 <= i < n ==> s[i] == c
  {
    if n == 0 then "" else [c] + Repeat(c, n - 1)
  }

  /** `ZERO_ADDRESS`: `0x` followed by forty zeros. */
  const ZeroAddress: string := "0x0000000000000000000000000000000000000000"

  /** `isContractReady`: the configured address, lowercased, is not the zero address. */
  predicate IsContractReady(contractAddress: string) {
    Text.ToLower(contractAddress) != ZeroAddress
  }

  /** The zero address in either spelling of its `x`. */
  predicate IsZeroAddressSpelling(a: string) {
    && |a| == 42
    && a[0] == '0'
    && (a[1] == 'x' || a[1] == 'X')
    && forall i :: 2 <= i < 42 ==> a[i] == '0'
  }

  /** The contract counts as not ready for exactly two strings, `0x000…0` and `0X000…0`. */
  lemma ContractReadyExactly(a: string)
    ensures IsContractReady(a) <==> !IsZeroAddressSpelling(a)
  {
    assert ZeroAddress == "0x" + Repeat('0', 40);
    var lower := Text.ToLower(a);
    if lower == ZeroAddress {
      forall i | 2 <= i < 42 ensures a[i] == '0' {
        assert lower[i] == ZeroAddress[i];
      }
      assert lower[1] == 'x';
    }
    if IsZeroAddressSpelling(a) {
      assert forall i :: 0 <= i < 42 ==> lower[i] == ZeroAddress[i];
    }
  }
}
