/** The cryptographic libraries the frame codec calls, as an arbitrary suite of functions.

    Every statement about frames holds for each suite that meets `Lawful`: RSAES-PKCS1-v1_5
    decryption undoes encryption (section 7.2 of RFC 8017) and AEAD_AES_256_GCM yields a ciphertext
    16 octets longer than its plaintext, which opens to that plaintext (section 5.2 of RFC 5116). */
module Cipher {
  import opened Prelude

  datatype PrivKey = PrivKey(id: nat)
  datatype PubKey = PubKey(id: nat)

  const KEY_LEN := 32
  const NONCE_LEN := 12
  const TAG_LEN := 16

  /** No RSA modulus is longer than this many octets. */
  const MODULUS_MAX := 0xFFFF

  datatype Suite = Suite(
    publicOf: PrivKey -> PubKey,
    exportPem: PubKey -> Option<Str>,
    importPem: Str -> Option<PubKey>,
    /** public key, padding randomness, message */
    rsaEncrypt: (PubKey, Str, Str) -> Option<Str>,
    rsaDecrypt: (PrivKey, Str) -> Option<Str>,
    /** key, nonce, plaintext */
    seal: (Str, Str, Str) -> Str,
    open: (Str, Str, Str) -> Option<Str>)

  ghost predicate Lawful(s: Suite) {
    && (forall pub :: s.exportPem(pub).Some? ==> s.importPem(s.exportPem(pub).value) == Some(pub))
    && (forall priv, seed, m :: RsaLaw(s, priv, seed, m))
    && (forall key, nonce, m :: AeadLaw(s, key, nonce, m))
  }

  ghost predicate RsaLaw(s: Suite, priv: PrivKey, seed: Str, m: Str) {
    var c := s.rsaEncrypt(s.publicOf(priv), seed, m);
    c.Some? ==> |c.value| <= MODULUS_MAX && s.rsaDecrypt(priv, c.value) == Some(m)
  }

  ghost predicate AeadLaw(s: Suite, key: Str, nonce: Str, m: Str) {
    && |s.seal(key, nonce, m)| == |m| + TAG_LEN
    && (|key| == KEY_LEN && |nonce| == NONCE_LEN ==>
          s.open(key, nonce, s.seal(key, nonce, m)) == Some(m))
  }

  /** A suite that meets the laws, with no secrecy at all: the laws do not contradict each other. */
  function PlainSuite(): Suite {
    Suite(
      (k: PrivKey) => PubKey(k.id),
      (k: PubKey) => Some(seq(k.id, _ => 65)),
      (pem: Str) => Some(PubKey(|pem|)),
      (k: PubKey, seed: Str, m: Str) => if |m| <= MODULUS_MAX then Some(m) else None,
      (k: PrivKey, c: Str) => Some(c),
      (k: Str, n: Str, m: Str) => m + seq(TAG_LEN, _ => 0),
      (k: Str, n: Str, c: Str) => if |c| < TAG_LEN then None else Some(c[..|c| - TAG_LEN]))
  }

  lemma PlainSuiteIsLawful()
    ensures Lawful(PlainSuite())
  {
    var s := PlainSuite();
    forall pub ensures s.importPem(s.exportPem(pub).value) == Some(pub) {
      assert s.exportPem(pub).value == seq(pub.id, _ => 65);
    }
    forall key, nonce, m ensures AeadLaw(s, key, nonce, m) {
      var c := s.seal(key, nonce, m);
      assert c[..|c| - TAG_LEN] == m;
    }
  }
}
