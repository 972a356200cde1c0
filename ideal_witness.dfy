/**
 * The assumptions the security proofs make of the primitives are satisfiable together: a toy
 * instance, built from an injective self-delimiting encoding of byte strings, meets every one of
 * them. It is no cipher; it only shows that `Crypto.Ideal` is not a contradiction, so the lemmas
 * that assume it are not vacuous.
 */
module IdealWitness {
  import opened Types
  import opened Crypto

  /** Each byte as the pair 1, b, and the end as a single 0: no encoding is a prefix of another. */
  function Enc(x: bytes): (r: bytes)
    ensures |r| > 0
  {
    if x == [] then [0] else [1, x[0]] + Enc(x[1..])
  }

  /** Reads one encoded string off the front of `s`, and returns it with the rest of `s`. */
  function Dec(s: bytes): (r: Option<(bytes, bytes)>)
    ensures r.Some? ==> |r.value.1| < |s|
  {
    if s == [] then None
    else if s[0] == 0 then Some(([], s[1..]))
    else if s[0] == 1 && |s| >= 2 then
      match Dec(s[2..])
      case Some((x, rest)) => Some(([s[1]] + x, rest))
      case None => None
    else None
  }

  lemma {:induction false} DecEnc(x: bytes, t: bytes)
    ensures Dec(Enc(x) + t) == Some((x, t))
  {
    if x == [] {
      assert (Enc(x) + t)[1..] == t;
    } else {
      DecEnc(x[1..], t);
      assert Enc(x) + t == [1, x[0]] + (Enc(x[1..]) + t);
      assert (Enc(x) + t)[2..] == Enc(x[1..]) + t;
      assert [x[0]] + x[1..] == x;
    }
  }

  lemma {:induction false} EncDec(s: bytes)
    requires Dec(s).Some?
    ensures s == Enc(Dec(s).value.0) + Dec(s).value.1
    decreases |s|
  {
    if s[0] == 0 {
      assert s == [0] + s[1..];
    } else {
      var inner := Dec(s[2..]);
      EncDec(s[2..]);
      var x := inner.value.0;
      assert Dec(s).value.0 == [s[1]] + x;
      assert ([s[1]] + x)[1..] == x;
      assert s == [1, s[1]] + s[2..];
    }
  }

  /** The encoding followed by anything is injective. */
  lemma EncPrefix(a: bytes, t: bytes, a': bytes, t': bytes)
    requires Enc(a) + t == Enc(a') + t'
    ensures a == a' && t == t'
  {
    DecEnc(a, t);
    DecEnc(a', t');
  }

  function Zeros(n: nat): (r: bytes)
    ensures |r| == n
  {
    if n == 0 then [] else [0] + Zeros(n - 1)
  }

  function Seal(k: bytes, m: bytes, ad: bytes): bytes {
    Enc(k) + (Enc(m) + (Enc(ad) + Zeros(TagLength)))
  }

  function OpenSealed(k: bytes, c: bytes, ad: bytes): Option<bytes> {
    match Dec(c)
    case None => None
    case Some((k1, r1)) =>
      match Dec(r1)
      case None => None
      case Some((m, r2)) =>
        match Dec(r2)
        case None => None
        case Some((ad1, r3)) => if k1 == k && ad1 == ad && r3 == Zeros(TagLength) then Some(m) else None
  }

  function Sig(sk: bytes, m: bytes): bytes {
    Enc(sk) + Enc(m)
  }

  /**
   * The toy primitives: digests and raw public keys are zeros, a key's public PEM is the key, an
   * exchange returns the private PEM (the ephemeral side gets it as the peer's public PEM), HKDF
   * is the identity, and sealing and signing encode their inputs.
   */
  function Witness(): Primitives {
    Primitives(
      (m: bytes) => Zeros(32),
      (k: bytes, n: bytes, m: bytes, ad: bytes) => Seal(k, m, ad),
      (k: bytes, n: bytes, c: bytes, ad: bytes) => OpenSealed(k, c, ad),
      (s: bytes, info: bytes) => s,
      (priv: bytes) => priv,
      (eph: bytes) => Zeros(32),
      (eph: bytes, pub: bytes) => pub,
      (priv: bytes, raw: bytes) => priv,
      (sk: bytes) => sk,
      (sk: bytes, m: bytes) => Sig(sk, m),
      (pk: bytes, m: bytes, sig: bytes) => sig == Sig(pk, m))
  }

  lemma OpenSeal(k: bytes, m: bytes, ad: bytes)
    ensures |Seal(k, m, ad)| >= TagLength && OpenSealed(k, Seal(k, m, ad), ad) == Some(m)
  {
    DecEnc(k, Enc(m) + (Enc(ad) + Zeros(TagLength)));
    DecEnc(m, Enc(ad) + Zeros(TagLength));
    DecEnc(ad, Zeros(TagLength));
  }

  lemma SealOpen(k: bytes, c: bytes, ad: bytes)
    requires OpenSealed(k, c, ad).Some?
    ensures c == Seal(k, OpenSealed(k, c, ad).value, ad)
  {
    var r1 := Dec(c).value.1;
    var r2 := Dec(r1).value.1;
    EncDec(c);
    EncDec(r1);
    EncDec(r2);
  }

  lemma SealInjective(k: bytes, k': bytes, m: bytes, m': bytes, ad: bytes, ad': bytes)
    requires Seal(k, m, ad) == Seal(k', m', ad')
    ensures k == k' && m == m' && ad == ad'
  {
    EncPrefix(k, Enc(m) + (Enc(ad) + Zeros(TagLength)), k', Enc(m') + (Enc(ad') + Zeros(TagLength)));
    EncPrefix(m, Enc(ad) + Zeros(TagLength), m', Enc(ad') + Zeros(TagLength));
    EncPrefix(ad, Zeros(TagLength), ad', Zeros(TagLength));
  }

  lemma SigInjective(sk: bytes, sk': bytes, m: bytes, m': bytes)
    requires Sig(sk, m) == Sig(sk', m')
    ensures sk == sk' && m == m'
  {
    EncPrefix(sk, Enc(m), sk', Enc(m'));
    assert Enc(m) + [] == Enc(m') + [];
    EncPrefix(m, [], m', []);
  }

  /** Every assumption of the security proofs holds of the toy primitives. */
  lemma WitnessIdeal()
    ensures Ideal(Witness())
  {
    var p := Witness();
    forall k, n, m, ad
      ensures |p.aeadSeal(k, n, m, ad)| >= TagLength && p.aeadOpen(k, n, p.aeadSeal(k, n, m, ad), ad) == Some(m)
    {
      OpenSeal(k, m, ad);
    }
    forall k, n, c, ad | p.aeadOpen(k, n, c, ad).Some?
      ensures c == p.aeadSeal(k, n, p.aeadOpen(k, n, c, ad).value, ad)
    {
      SealOpen(k, c, ad);
    }
    forall k, k', n, m, m', ad, ad' | p.aeadSeal(k, n, m, ad) == p.aeadSeal(k', n, m', ad')
      ensures k == k' && m == m' && ad == ad'
    {
      SealInjective(k, k', m, m', ad, ad');
    }
    forall sk, sk', m, m' | p.ed25519Verify(p.ed25519PublicPem(sk'), m', p.ed25519Sign(sk, m))
      ensures m' == m && p.ed25519PublicPem(sk') == p.ed25519PublicPem(sk)
    {
      SigInjective(sk, sk', m, m');
    }
  }
}
