/**
 * The cryptographic layer of chainofproduct (chainofproduct/crypto.py): the base64 wrappers, the
 * AES-GCM ciphertext/tag split and join, the X25519 + HKDF + AES-GCM key wrap and its JSON
 * payload, Ed25519 signatures and SHA-256 hashing. The primitives themselves are parameters.
 */
module Crypto {
  import opened Types
  import Base64
  import Utf8
  import opened Json
  import JsonParse

  /**
   * The primitives the `cryptography` package provides. A key loaded from PEM is represented by
   * its PEM bytes, an ephemeral X25519 key by its raw private bytes.
   */
  datatype Primitives = Primitives(
    sha256: bytes -> bytes,                             // SHA-256 (FIPS 180-4)
    aeadSeal: (bytes, bytes, bytes, bytes) -> bytes,    // AES-GCM (NIST SP 800-38D): key, nonce, data, aad to data ciphertext and tag
    aeadOpen: (bytes, bytes, bytes, bytes) -> Option<bytes>,  // key, nonce, ciphertext and tag, aad; None when the tag is wrong
    hkdf: (bytes, bytes) -> bytes,                      // HKDF-SHA256 (RFC 5869) with no salt: secret, info
    x25519PublicPem: bytes -> bytes,                    // the public-key PEM of an X25519 private-key PEM
    x25519PublicRaw: bytes -> bytes,                    // the raw public bytes of an ephemeral X25519 key
    x25519ExchangeEphemeral: (bytes, bytes) -> bytes,   // X25519 (RFC 7748): ephemeral private key, peer public PEM
    x25519Exchange: (bytes, bytes) -> bytes,            // X25519: private-key PEM, raw peer public bytes
    ed25519PublicPem: bytes -> bytes,                   // the public-key PEM of an Ed25519 private-key PEM
    ed25519Sign: (bytes, bytes) -> bytes,               // Ed25519 (RFC 8032): private-key PEM, message
    ed25519Verify: (bytes, bytes, bytes) -> bool)       // public-key PEM, message, signature

  // ---------------------------------------------------------------------------------------------
  // What the proofs assume of the primitives. Only lengths the protocol relies on are fixed:
  // a binding law and a fixed output length could not hold together for all inputs.

  /** A SHA-256 digest is 32 bytes. */
  ghost predicate DigestLength(p: Primitives) {
    forall m :: |p.sha256(m)| == 32
  }

  /** AES-GCM output carries a 16-byte tag, and decrypting it under the same key, nonce and aad gives the data back. */
  ghost predicate AeadCorrect(p: Primitives) {
    forall k, n, m, ad :: |p.aeadSeal(k, n, m, ad)| >= TagLength && p.aeadOpen(k, n, p.aeadSeal(k, n, m, ad), ad) == Some(m)
  }

  /** AES-GCM decryption accepts only what encryption under that key, nonce and aad produced. */
  ghost predicate AeadIntegrity(p: Primitives) {
    forall k, n, c, ad | p.aeadOpen(k, n, c, ad).Some? :: c == p.aeadSeal(k, n, p.aeadOpen(k, n, c, ad).value, ad)
  }

  /** For one nonce, an AES-GCM output determines key, data and aad. */
  ghost predicate AeadBinding(p: Primitives) {
    forall k, k', n, m, m', ad, ad' :: p.aeadSeal(k, n, m, ad) == p.aeadSeal(k', n, m', ad') ==> k == k' && m == m' && ad == ad'
  }

  /** Both ends of an X25519 exchange agree, and a raw public key is 32 bytes. */
  ghost predicate KeyAgreement(p: Primitives) {
    (forall priv, eph :: p.x25519Exchange(priv, p.x25519PublicRaw(eph)) == p.x25519ExchangeEphemeral(eph, p.x25519PublicPem(priv))) &&
    (forall eph :: |p.x25519PublicRaw(eph)| == 32)
  }

  /** Two private keys agree on one secret with a peer only if they are the same key pair. */
  ghost predicate AgreementBinding(p: Primitives) {
    forall a, b, e :: p.x25519Exchange(a, e) == p.x25519Exchange(b, e) ==> p.x25519PublicPem(a) == p.x25519PublicPem(b)
  }

  /** HKDF derives different keys from different secrets. */
  ghost predicate KdfBinding(p: Primitives) {
    forall s, s', info :: p.hkdf(s, info) == p.hkdf(s', info) ==> s == s'
  }

  /** A signature verifies under the signer's public key. */
  ghost predicate SignatureCorrect(p: Primitives) {
    forall sk, m :: p.ed25519Verify(p.ed25519PublicPem(sk), m, p.ed25519Sign(sk, m))
  }

  /** An Ed25519 signature is never empty (it is 64 bytes; a fixed length is not assumed, as above). */
  ghost predicate SignatureNonEmpty(p: Primitives) {
    forall sk, m :: |p.ed25519Sign(sk, m)| > 0
  }

  /** A signature verifies only for the message it was made for, under its signer's public key. */
  ghost predicate SignatureBinding(p: Primitives) {
    forall sk, sk', m, m' ::
      p.ed25519Verify(p.ed25519PublicPem(sk'), m', p.ed25519Sign(sk, m)) ==> m' == m && p.ed25519PublicPem(sk') == p.ed25519PublicPem(sk)
  }

  /**
   * Under a key pair's public key, only the signature that key pair makes over the message
   * (Ed25519 signing is deterministic) verifies: no other byte string is accepted.
   */
  ghost predicate SignatureUnforgeable(p: Primitives) {
    forall sk, m, s :: p.ed25519Verify(p.ed25519PublicPem(sk), m, s) ==> s == p.ed25519Sign(sk, m)
  }

  /** The idealised primitives every security property below is proved for. */
  ghost predicate Ideal(p: Primitives) {
    DigestLength(p) && AeadCorrect(p) && AeadIntegrity(p) && AeadBinding(p) && KeyAgreement(p) &&
    AgreementBinding(p) && KdfBinding(p) && SignatureCorrect(p) && SignatureNonEmpty(p) && SignatureBinding(p) &&
    SignatureUnforgeable(p)
  }

  // ---------------------------------------------------------------------------------------------
  // Base64 of JSON values

  /** `b64d(v)` for a value read from a dict: only a str has the `encode` it calls. */
  function B64DecodeValue(v: Value): (r: Result<bytes>)
    ensures v.JString? ==> r == Base64.Decode(v.s)
    ensures !v.JString? ==> r == Err(TypeError)
  {
    if v.JString? then Base64.Decode(v.s) else Err(TypeError)
  }

  /** A value written with `b64e` reads back with `b64d`. */
  lemma B64ValueRoundTrip(data: bytes)
    ensures B64DecodeValue(JString(Base64.Encode(data))) == Ok(data)
  {
    Base64.DecodeEncode(data);
  }

  // ---------------------------------------------------------------------------------------------
  // AES-GCM

  const TagLength := 16
  const NonceLength := 12

  predicate ValidNonce(nonce: bytes) {
    8 <= |nonce| <= 128
  }

  /** `AESGCM(key).decrypt(nonce, data, aad)`: the nonce length is checked first, then the tag. */
  function Open(p: Primitives, key: bytes, nonce: bytes, data: bytes, ad: bytes): (r: Result<bytes>)
    ensures !ValidNonce(nonce) ==> r == Err(InvalidNonce)
    ensures ValidNonce(nonce) && |data| < TagLength ==> r == Err(InvalidTag)
    ensures r.Ok? <==> ValidNonce(nonce) && |data| >= TagLength && p.aeadOpen(key, nonce, data, ad).Some?
    ensures r.Ok? ==> p.aeadOpen(key, nonce, data, ad) == Some(r.value)
  {
    if !ValidNonce(nonce) then Err(InvalidNonce)
    else if |data| < TagLength then Err(InvalidTag)
    else
      match p.aeadOpen(key, nonce, data, ad)
      case None => Err(InvalidTag)
      case Some(m) => Ok(m)
  }

  /**
   * `encrypt_aes_gcm` for a given nonce: the AES-GCM output cut as `ct_with_tag[:-16]` and
   * `ct_with_tag[-16:]`, with Python's clamping of slices on outputs shorter than 16 bytes.
   */
  function EncryptAesGcmWith(p: Primitives, key: bytes, plaintext: bytes, ad: bytes, nonce: bytes): (r: (bytes, bytes, bytes))
    ensures var out := p.aeadSeal(key, nonce, plaintext, ad);
      r.0 + r.1 == out && r.2 == nonce && |r.1| == (if |out| >= TagLength then TagLength else |out|)
  {
    var out := p.aeadSeal(key, nonce, plaintext, ad);
    var cut := if |out| >= TagLength then |out| - TagLength else 0;
    (out[..cut], out[cut..], nonce)
  }

  /** `encrypt_aes_gcm`: draws a fresh 12-byte nonce. */
  method EncryptAesGcm(p: Primitives, key: bytes, plaintext: bytes, ad: bytes) returns (ciphertext: bytes, tag: bytes, nonce: bytes)
    ensures |nonce| == NonceLength
    ensures (ciphertext, tag, nonce) == EncryptAesGcmWith(p, key, plaintext, ad, nonce)
    ensures ciphertext + tag == p.aeadSeal(key, nonce, plaintext, ad)
  {
    var zeros: bytes := seq(NonceLength, _ => 0);
    assert |zeros| == NonceLength;
    nonce :| |nonce| == NonceLength;
    var r := EncryptAesGcmWith(p, key, plaintext, ad, nonce);
    ciphertext, tag := r.0, r.1;
  }

  /** `decrypt_aes_gcm`: ciphertext and tag joined again before decrypting. */
  function DecryptAesGcm(p: Primitives, key: bytes, ciphertext: bytes, tag: bytes, nonce: bytes, ad: bytes): (r: Result<bytes>)
    ensures r.Ok? ==> p.aeadOpen(key, nonce, ciphertext + tag, ad) == Some(r.value) && ValidNonce(nonce)
  {
    Open(p, key, nonce, ciphertext + tag, ad)
  }

  /** Decrypting what `encrypt_aes_gcm` returned, with the same key and aad, gives the plaintext. */
  lemma AeadRoundTrip(p: Primitives, key: bytes, plaintext: bytes, ad: bytes, nonce: bytes)
    requires Ideal(p) && |nonce| == NonceLength
    ensures var (ct, tag, n) := EncryptAesGcmWith(p, key, plaintext, ad, nonce);
      DecryptAesGcm(p, key, ct, tag, n, ad) == Ok(plaintext)
  {
    var out := p.aeadSeal(key, nonce, plaintext, ad);
    assert p.aeadOpen(key, nonce, out, ad) == Some(plaintext);
  }

  /** With different associated data, or a different key, decryption fails authentication. */
  lemma AeadWrongContext(p: Primitives, key: bytes, key': bytes, plaintext: bytes, ad: bytes, ad': bytes, nonce: bytes)
    requires Ideal(p) && |nonce| == NonceLength && (ad' != ad || key' != key)
    ensures var (ct, tag, n) := EncryptAesGcmWith(p, key, plaintext, ad, nonce);
      DecryptAesGcm(p, key', ct, tag, n, ad') == Err(InvalidTag)
  {
    var out := p.aeadSeal(key, nonce, plaintext, ad);
    if p.aeadOpen(key', nonce, out, ad').Some? {
      assert false;
    }
  }

  /** Whatever decryption accepts was sealed under exactly that key, nonce and associated data. */
  lemma DecryptIntegrity(p: Primitives, key: bytes, ciphertext: bytes, tag: bytes, nonce: bytes, ad: bytes)
    requires Ideal(p) && DecryptAesGcm(p, key, ciphertext, tag, nonce, ad).Ok?
    ensures ciphertext + tag == p.aeadSeal(key, nonce, DecryptAesGcm(p, key, ciphertext, tag, nonce, ad).value, ad)
  {
    assert p.aeadOpen(key, nonce, ciphertext + tag, ad).Some?;
  }

  // ---------------------------------------------------------------------------------------------
  // Key wrap

  /** The HKDF info string, b"cop-key-wrap". */
  const WrapInfo: bytes := [99, 111, 112, 45, 107, 101, 121, 45, 119, 114, 97, 112]

  /** `_derive_wrap_key`: HKDF-SHA256, no salt, info b"cop-key-wrap". */
  function DeriveWrapKey(p: Primitives, shared: bytes): (k: bytes)
    ensures Ideal(p) ==> forall other :: p.hkdf(other, WrapInfo) == k ==> other == shared
  {
    p.hkdf(shared, WrapInfo)
  }

  /** The fields of the wrap payload, in the order the dict literal inserts them. */
  function WrapFields(p: Primitives, recipientPublicPem: bytes, symKey: bytes, ephemeral: bytes, nonce: bytes): seq<(string, string)> {
    var wrapKey := DeriveWrapKey(p, p.x25519ExchangeEphemeral(ephemeral, recipientPublicPem));
    [("ephemeral_public", Base64.Encode(p.x25519PublicRaw(ephemeral))),
     ("nonce", Base64.Encode(nonce)),
     ("ciphertext", Base64.Encode(p.aeadSeal(wrapKey, nonce, symKey, [])))]
  }

  /** `wrap_key` for a given ephemeral key and nonce: `json.dumps(payload).encode("utf-8")`. */
  function WrapKeyWith(p: Primitives, recipientPublicPem: bytes, symKey: bytes, ephemeral: bytes, nonce: bytes): (r: bytes)
    ensures |r| >= 2
  {
    var text := DumpsStrings(WrapFields(p, recipientPublicPem, symKey, ephemeral, nonce));
    Utf8.Encode(text)
  }

  /** `wrap_key`: draws a fresh ephemeral key pair and a fresh 12-byte nonce. */
  method WrapKey(p: Primitives, recipientPublicPem: bytes, symKey: bytes) returns (wrapped: bytes)
    ensures exists ephemeral: bytes, nonce: bytes ::
      |nonce| == NonceLength && wrapped == WrapKeyWith(p, recipientPublicPem, symKey, ephemeral, nonce)
  {
    var zeros: bytes := seq(NonceLength, _ => 0);
    assert |zeros| == NonceLength;
    var nonce: bytes :| |nonce| == NonceLength;
    var ephemeral: bytes :| true;
    wrapped := WrapKeyWith(p, recipientPublicPem, symKey, ephemeral, nonce);
  }

  /** `unwrap_key`: read the payload, agree on the secret, derive the wrap key, decrypt. */
  function UnwrapKey(p: Primitives, recipientPrivatePem: bytes, wrapped: bytes): (r: Result<bytes>)
    ensures r.Ok? ==> JsonParse.LoadsBytes(wrapped).Ok?
  {
    var payload :- JsonParse.LoadsBytes(wrapped);
    var ephemeralField :- Subscript(payload, "ephemeral_public");
    var ephemeralPublic :- B64DecodeValue(ephemeralField);
    if |ephemeralPublic| != 32 then Err(InvalidKey)
    else
      var wrapKey := DeriveWrapKey(p, p.x25519Exchange(recipientPrivatePem, ephemeralPublic));
      var nonceField :- Subscript(payload, "nonce");
      var nonce :- B64DecodeValue(nonceField);
      var ctField :- Subscript(payload, "ciphertext");
      var ct :- B64DecodeValue(ctField);
      Open(p, wrapKey, nonce, ct, [])
  }

  /** The dict the wrap payload reads back as. */
  function WrapPayloadDict(p: Primitives, recipientPublicPem: bytes, symKey: bytes, ephemeral: bytes, nonce: bytes): Dict {
    var f := WrapFields(p, recipientPublicPem, symKey, ephemeral, nonce);
    PayloadDict(f[0].1, f[1].1, f[2].1)
  }

  /** The dict of three string fields named as in the wrap payload. */
  function PayloadDict(e: string, n: string, c: string): Dict {
    map["ephemeral_public" := JString(e), "nonce" := JString(n), "ciphertext" := JString(c)]
  }

  lemma LoadsPayload(e: string, n: string, c: string)
    ensures var fields := [("ephemeral_public", e), ("nonce", n), ("ciphertext", c)];
      JsonParse.LoadsBytes(Utf8.Encode(DumpsStrings(fields))) == Ok(JObject(PayloadDict(e, n, c)))
  {
    var fields := [("ephemeral_public", e), ("nonce", n), ("ciphertext", c)];
    JsonParse.LoadsBytesEncode(DumpsStrings(fields));
    JsonParse.LoadsDumpsStrings(fields);
    PayloadStrings(e, n, c);
  }

  lemma PayloadStrings(e: string, n: string, c: string)
    ensures StringsDict([("ephemeral_public", e), ("nonce", n), ("ciphertext", c)]) == PayloadDict(e, n, c)
  {
    var fields := [("ephemeral_public", e), ("nonce", n), ("ciphertext", c)];
    assert fields[1..] == [("nonce", n), ("ciphertext", c)];
    assert fields[1..][1..] == [("ciphertext", c)];
    assert fields[1..][1..][1..] == [];
    assert StringsDict(fields[1..][1..]) == map["ciphertext" := JString(c)];
    assert StringsDict(fields[1..]) == map["nonce" := JString(n)] + map["ciphertext" := JString(c)];
  }

  /** The wrap payload is a JSON object with exactly the fields ephemeral_public, nonce and ciphertext. */
  lemma WrapPayload(p: Primitives, recipientPublicPem: bytes, symKey: bytes, ephemeral: bytes, nonce: bytes)
    ensures JsonParse.LoadsBytes(WrapKeyWith(p, recipientPublicPem, symKey, ephemeral, nonce))
         == Ok(JObject(WrapPayloadDict(p, recipientPublicPem, symKey, ephemeral, nonce)))
    ensures WrapPayloadDict(p, recipientPublicPem, symKey, ephemeral, nonce).Keys == {"ephemeral_public", "nonce", "ciphertext"}
  {
    var f := WrapFields(p, recipientPublicPem, symKey, ephemeral, nonce);
    LoadsPayload(f[0].1, f[1].1, f[2].1);
  }

  /** `unwrap_key` on a payload whose three fields decode. */
  lemma UnwrapUnfold(p: Primitives, recipientPrivatePem: bytes, wrapped: bytes, e: string, n: string, c: string,
                     ephemeralPublic: bytes, nonce: bytes, ct: bytes)
    requires JsonParse.LoadsBytes(wrapped) == Ok(JObject(PayloadDict(e, n, c)))
    requires Base64.Decode(e) == Ok(ephemeralPublic) && |ephemeralPublic| == 32
    requires Base64.Decode(n) == Ok(nonce) && Base64.Decode(c) == Ok(ct)
    ensures UnwrapKey(p, recipientPrivatePem, wrapped)
         == Open(p, DeriveWrapKey(p, p.x25519Exchange(recipientPrivatePem, ephemeralPublic)), nonce, ct, [])
  {
  }

  /** The steps of `unwrap_key` on a payload `wrap_key` wrote. */
  lemma UnwrapPayload(p: Primitives, recipientPrivatePem: bytes, recipientPublicPem: bytes, symKey: bytes, ephemeral: bytes, nonce: bytes)
    requires Ideal(p)
    ensures var wrapped := WrapKeyWith(p, recipientPublicPem, symKey, ephemeral, nonce);
      var wrapKey := DeriveWrapKey(p, p.x25519ExchangeEphemeral(ephemeral, recipientPublicPem));
      UnwrapKey(p, recipientPrivatePem, wrapped)
      == Open(p, DeriveWrapKey(p, p.x25519Exchange(recipientPrivatePem, p.x25519PublicRaw(ephemeral))), nonce,
              p.aeadSeal(wrapKey, nonce, symKey, []), [])
  {
    var f := WrapFields(p, recipientPublicPem, symKey, ephemeral, nonce);
    var wrapKey := DeriveWrapKey(p, p.x25519ExchangeEphemeral(ephemeral, recipientPublicPem));
    LoadsPayload(f[0].1, f[1].1, f[2].1);
    Base64.DecodeEncode(p.x25519PublicRaw(ephemeral));
    Base64.DecodeEncode(nonce);
    Base64.DecodeEncode(p.aeadSeal(wrapKey, nonce, symKey, []));
    UnwrapUnfold(p, recipientPrivatePem, WrapKeyWith(p, recipientPublicPem, symKey, ephemeral, nonce), f[0].1, f[1].1, f[2].1,
                 p.x25519PublicRaw(ephemeral), nonce, p.aeadSeal(wrapKey, nonce, symKey, []));
  }

  /** `unwrap_key(priv, wrap_key(pub_of(priv), k)) == k`. */
  lemma UnwrapWrap(p: Primitives, recipientPrivatePem: bytes, symKey: bytes, ephemeral: bytes, nonce: bytes)
    requires Ideal(p) && |nonce| == NonceLength
    ensures UnwrapKey(p, recipientPrivatePem, WrapKeyWith(p, p.x25519PublicPem(recipientPrivatePem), symKey, ephemeral, nonce)) == Ok(symKey)
  {
    var pub := p.x25519PublicPem(recipientPrivatePem);
    UnwrapPayload(p, recipientPrivatePem, pub, symKey, ephemeral, nonce);
    assert p.x25519Exchange(recipientPrivatePem, p.x25519PublicRaw(ephemeral)) == p.x25519ExchangeEphemeral(ephemeral, pub);
    var wrapKey := DeriveWrapKey(p, p.x25519ExchangeEphemeral(ephemeral, pub));
    assert p.aeadOpen(wrapKey, nonce, p.aeadSeal(wrapKey, nonce, symKey, []), []) == Some(symKey);
  }

  /** Unwrapping with a private key of another key pair fails authentication. */
  lemma UnwrapWrongKey(p: Primitives, recipientPrivatePem: bytes, otherPrivatePem: bytes, symKey: bytes, ephemeral: bytes, nonce: bytes)
    requires Ideal(p) && |nonce| == NonceLength
    requires p.x25519PublicPem(otherPrivatePem) != p.x25519PublicPem(recipientPrivatePem)
    ensures UnwrapKey(p, otherPrivatePem, WrapKeyWith(p, p.x25519PublicPem(recipientPrivatePem), symKey, ephemeral, nonce)) == Err(InvalidTag)
  {
    var pub := p.x25519PublicPem(recipientPrivatePem);
    var raw := p.x25519PublicRaw(ephemeral);
    UnwrapPayload(p, otherPrivatePem, pub, symKey, ephemeral, nonce);
    var shared := p.x25519ExchangeEphemeral(ephemeral, pub);
    assert p.x25519Exchange(recipientPrivatePem, raw) == shared;
    var wrapKey := DeriveWrapKey(p, shared);
    var otherKey := DeriveWrapKey(p, p.x25519Exchange(otherPrivatePem, raw));
    var sealed := p.aeadSeal(wrapKey, nonce, symKey, []);
    assert p.aeadOpen(otherKey, nonce, sealed, []).Some? ==> otherKey == wrapKey;
  }

  // ---------------------------------------------------------------------------------------------
  // Signatures and hashing

  /** `sign`: Ed25519 over the message, deterministic as RFC 8032 specifies. */
  function Sign(p: Primitives, privateSigningPem: bytes, message: bytes): (sig: bytes)
    ensures Ideal(p) ==> |sig| > 0 && Verify(p, p.ed25519PublicPem(privateSigningPem), message, sig)
  {
    p.ed25519Sign(privateSigningPem, message)
  }

  /**
   * `verify`: a Boolean whatever the signature; the library's exception becomes False. Under a key pair's
   * public key, only the signature that key pair makes over this very message verifies.
   */
  function Verify(p: Primitives, publicSigningPem: bytes, message: bytes, signature: bytes): (ok: bool)
    ensures Ideal(p) && ok ==>
      forall sk | publicSigningPem == p.ed25519PublicPem(sk) :: signature == p.ed25519Sign(sk, message)
    ensures Ideal(p) && ok ==>
      forall owner, sk, signed :: publicSigningPem == p.ed25519PublicPem(owner) && signature == p.ed25519Sign(sk, signed) ==>
        signed == message && p.ed25519PublicPem(sk) == publicSigningPem
  {
    p.ed25519Verify(publicSigningPem, message, signature)
  }

  /** A signature of `m` verifies for `m'` under the public key of `sk'` exactly when it is the same message and key pair. */
  lemma SignVerify(p: Primitives, sk: bytes, sk': bytes, m: bytes, m': bytes)
    requires Ideal(p)
    ensures Verify(p, p.ed25519PublicPem(sk'), m', Sign(p, sk, m)) <==> m' == m && p.ed25519PublicPem(sk') == p.ed25519PublicPem(sk)
  {
    if m' == m && p.ed25519PublicPem(sk') == p.ed25519PublicPem(sk) {
      assert p.ed25519Verify(p.ed25519PublicPem(sk), m, p.ed25519Sign(sk, m));
    }
  }

  /** Any byte string other than the key pair's own signature of `m` fails `verify` under its public key. */
  lemma ForgedSignatureRejected(p: Primitives, sk: bytes, m: bytes, s: bytes)
    requires Ideal(p) && s != Sign(p, sk, m)
    ensures !Verify(p, p.ed25519PublicPem(sk), m, s)
  {
  }

  /** The SHA-256 digest of `data`. */
  function Hash(p: Primitives, data: bytes): (digest: bytes)
    ensures Ideal(p) ==> |digest| == 32
  {
    p.sha256(data)
  }

  /** `hashes.Hash(hashes.SHA256())`: a digest object fed by `update` and closed by `finalize`. */
  class Sha256 {
    const primitives: Primitives
    /** The bytes fed so far. */
    var fed: bytes
    var finalized: bool

    constructor (primitives: Primitives)
      ensures this.primitives == primitives && fed == [] && !finalized
    {
      this.primitives := primitives;
      fed := [];
      finalized := false;
    }

    /** `update`: refused by the library once the digest is finalized. */
    method Update(data: bytes)
      requires !finalized
      modifies this
      ensures fed == old(fed) + data && !finalized
    {
      fed := fed + data;
    }

    /** `finalize`: the digest of everything fed, once. */
    method Finalize() returns (digest: bytes)
      requires !finalized
      modifies this
      ensures finalized && fed == old(fed) && digest == Hash(primitives, fed)
    {
      finalized := true;
      digest := primitives.sha256(fed);
    }
  }

  /** `hash_bytes`: a fresh digest object fed `data` once. Equal inputs give equal digests. */
  method HashBytes(p: Primitives, data: bytes) returns (digest: bytes)
    ensures digest == Hash(p, data)
  {
    var h := new Sha256(p);
    h.Update(data);
    assert h.fed == data;
    digest := h.Finalize();
  }
}
