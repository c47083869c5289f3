/**
 * API keys (apps/api/src/keys.ts): a key is "moltbook_" followed by a
 * random part; its first twelve characters are the lookup prefix stored
 * beside the key's hash. Hashes are compared without an early exit.
 */
module Keys {
  import opened Text

  /** The fixed start of every API key. */
  const KeyTag: string := "moltbook_"

  /** The length of the random part `nanoid(32)` draws. */
  const KeyPartLength: nat := 32

  /** The length of the stored lookup prefix. */
  const PrefixLength: nat := 12

  /** The 64 symbols `nanoid` draws from: `A-Z a-z 0-9 _ -`. */
  predicate NanoidChar(c: char) {
    'A' <= c <= 'Z' || 'a' <= c <= 'z' || '0' <= c <= '9' || c == '_' || c == '-'
  }

  /** What `nanoid(32)` can return. */
  predicate NanoidKeyPart(s: string) {
    |s| == KeyPartLength && forall i :: 0 <= i < |s| ==> NanoidChar(s[i])
  }

  datatype CreatedKey = CreatedKey(apiKey: string, prefix: string)

  /** `createApiKey`, with the random part `keyPart` as a parameter. */
  function CreateApiKey(keyPart: string): (r: CreatedKey)
    ensures StartsWith(r.apiKey, KeyTag) && Drop(r.apiKey, |KeyTag|) == keyPart
    ensures |r.prefix| == if |keyPart| < PrefixLength then |keyPart| else PrefixLength
    ensures StartsWith(keyPart, r.prefix)
  {
    CreatedKey(KeyTag + keyPart, Take(keyPart, PrefixLength))
  }

  // ----------------------------------------------------------- comparing hashes

  /** The OR of the XORs of the two buffers, byte by byte: zero exactly when nothing differs. */
  function Difference(a: seq<bv8>, b: seq<bv8>): bv8
    requires |a| == |b|
  {
    if |a| == 0 then 0
    else Difference(a[..|a| - 1], b[..|b| - 1]) | (a[|a| - 1] ^ b[|b| - 1])
  }

  lemma {:induction false} DifferenceZero(a: seq<bv8>, b: seq<bv8>)
    requires |a| == |b|
    ensures Difference(a, b) == 0 <==> a == b
    decreases |a|
  {
    if |a| > 0 {
      var n := |a| - 1;
      DifferenceZero(a[..n], b[..n]);
      assert a == a[..n] + [a[n]] && b == b[..n] + [b[n]];
      var d := Difference(a[..n], b[..n]);
      assert (d | (a[n] ^ b[n])) == 0 <==> d == 0 && a[n] == b[n];
    }
  }

  /**
   * `timingSafeEqual`: buffers of different lengths are unequal before
   * any byte is compared (the library comparison refuses them); otherwise
   * every byte is compared.
   */
  function TimingSafeEqual(a: seq<bv8>, b: seq<bv8>): (r: bool)
    ensures |a| != |b| ==> !r
    ensures r <==> a == b
  {
    if |a| != |b| then false
    else
      DifferenceZero(a, b);
      Difference(a, b) == 0
  }
}
