/** The digest that couples the index to the data file, as the store uses it. */
module FileHash {
  import opened Store
  import Bits
  import Sha256

  /** `sha256_hex` of a string. */
  function Sha(): Digest {
    s => Sha256.HexDigest(Sha256.CharBytes(s))
  }

  /** It is the SHA-256 digest of the bytes of the string, in 64 digits. */
  lemma ShaIs(s: string, bytes: seq<Bits.Byte>)
    requires |bytes| == |s| && forall i :: 0 <= i < |s| ==> s[i] as int == bytes[i]
    ensures Sha()(s) == Sha256.HexDigest(bytes) && |Sha()(s)| == 64
  {
    assert Sha256.CharBytes(s) == bytes;
    Sha256.DigestShape(bytes);
  }

  /** A digest is one line of the index, whatever it is the digest of. */
  lemma ShaOneLine()
    ensures OneLine(Sha())
  {
    forall s: string ensures '\n' !in Sha()(s) {
      Sha256.DigestShape(Sha256.CharBytes(s));
    }
  }
}
