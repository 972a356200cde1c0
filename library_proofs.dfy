/**
 * What the chainofproduct protocol guarantees, proved about the model in Library for idealised
 * primitives (Crypto.Ideal): who can read a protected document, what check accepts, and what
 * share records allow.
 */
module LibraryProofs {
  import opened Types
  import opened Json
  import JsonParse
  import Base64
  import opened Crypto
  import opened Library


  // ---------------------------------------------------------------------------------------------
  // protect

  /** `protect` raises KeyError for the first key it lacks, in the order it reads them, and succeeds otherwise. */
  lemma ProtectErrors(p: Primitives, document: Dict, seller: CompanyKeys, buyer: CompanyKeys, r: ProtectRandomness)
    ensures Protect(p, document, seller, buyer, r).Ok? <==>
              seller.encryptionPublic.Some? && buyer.encryptionPublic.Some? && seller.signingPrivate.Some?
    ensures seller.encryptionPublic.None? || buyer.encryptionPublic.None? ==>
              Protect(p, document, seller, buyer, r) == Err(KeyError("encryption_public"))
    ensures seller.encryptionPublic.Some? && buyer.encryptionPublic.Some? && seller.signingPrivate.None? ==>
              Protect(p, document, seller, buyer, r) == Err(KeyError("signing_private"))
  {
  }

  /** A successful `protect` builds its dict from the names and keys it looked up. */
  lemma ProtectOk(p: Primitives, document: Dict, seller: CompanyKeys, buyer: CompanyKeys, r: ProtectRandomness)
    requires Protect(p, document, seller, buyer, r).Ok?
    ensures seller.encryptionPublic.Some? && buyer.encryptionPublic.Some? && seller.signingPrivate.Some?
    ensures Protect(p, document, seller, buyer, r).value ==
            Protected(p, document, SellerName(seller), seller.encryptionPublic.value, BuyerName(buyer), buyer.encryptionPublic.value,
                      seller.signingPrivate.value, r)
  {
    assert Need(seller.encryptionPublic, "encryption_public") == Ok(seller.encryptionPublic.value);
    assert Need(buyer.encryptionPublic, "encryption_public") == Ok(buyer.encryptionPublic.value);
    assert Need(seller.signingPrivate, "signing_private") == Ok(seller.signingPrivate.value);
  }

  /** The fields of a protected dict. */
  lemma ProtectedDocKeys(txId: string, sealed: (bytes, bytes, bytes), ekMap: Dict, hashT: bytes, sigSeller: bytes, createdAt: string)
    ensures ProtectedDoc(txId, sealed, ekMap, hashT, sigSeller, createdAt).Keys == ProtectedFields
  {
  }

  /** What the readers of a protected dict find in it. */
  lemma ProtectedDocFields(txId: string, sealed: (bytes, bytes, bytes), ekMap: Dict, hashT: bytes, sigSeller: bytes, createdAt: string)
    ensures var d := ProtectedDoc(txId, sealed, ekMap, hashT, sigSeller, createdAt);
      EkMapOf(d) == JObject(ekMap) && Get(d, "sig_buyer") == JNull && d["tx_id"] == JString(txId) &&
      d["created_at"] == JString(createdAt) && d["meta"] == Meta()
  {
  }

  /** The base64 fields of a protected dict decode to the bytes `protect` encoded. */
  lemma ProtectedDocBytes(txId: string, sealed: (bytes, bytes, bytes), ekMap: Dict, hashT: bytes, sigSeller: bytes, createdAt: string)
    ensures var d := ProtectedDoc(txId, sealed, ekMap, hashT, sigSeller, createdAt);
      B64Field(d, "ciphertext") == Ok(sealed.0) && B64Field(d, "tag") == Ok(sealed.1) && B64Field(d, "nonce") == Ok(sealed.2) &&
      B64Field(d, "hash_T") == Ok(hashT) && B64Field(d, "sig_seller") == Ok(sigSeller)
  {
    var d := ProtectedDoc(txId, sealed, ekMap, hashT, sigSeller, createdAt);
    assert d["ciphertext"] == B64Value(sealed.0) && d["tag"] == B64Value(sealed.1) && d["nonce"] == B64Value(sealed.2);
    assert d["hash_T"] == B64Value(hashT) && d["sig_seller"] == B64Value(sigSeller);
    B64ValueRoundTrip(sealed.0);
    B64ValueRoundTrip(sealed.1);
    B64ValueRoundTrip(sealed.2);
    B64ValueRoundTrip(hashT);
    B64ValueRoundTrip(sigSeller);
  }

  /** The entries of the ek_map literal: the buyer's always, the seller's when the names differ. */
  lemma EkMapEntries(sellerName: string, ekSeller: bytes, buyerName: string, ekBuyer: bytes)
    ensures var m := EkMap(sellerName, ekSeller, buyerName, ekBuyer);
      m.Keys == {sellerName, buyerName} && m[buyerName] == B64Value(ekBuyer) &&
      (sellerName != buyerName ==> m[sellerName] == B64Value(ekSeller))
  {
  }

  /** A name other than the two parties' has no entry in the ek_map literal. */
  lemma EkMapMissing(sellerName: string, ekSeller: bytes, buyerName: string, ekBuyer: bytes, name: string)
    requires name != sellerName && name != buyerName
    ensures name !in EkMap(sellerName, ekSeller, buyerName, ekBuyer)
  {
  }

  /** The ek_map of a protected dict holds the transaction key wrapped for each party's public key. */
  lemma ProtectedEkMap(p: Primitives, document: Dict, sellerName: string, sellerPublic: bytes, buyerName: string,
                       buyerPublic: bytes, signing: bytes, r: ProtectRandomness)
    ensures EkMapOf(Protected(p, document, sellerName, sellerPublic, buyerName, buyerPublic, signing, r)) ==
            JObject(EkMap(sellerName, WrapKeyWith(p, sellerPublic, r.symKey, r.sellerEphemeral, r.sellerWrapNonce),
                          buyerName, WrapKeyWith(p, buyerPublic, r.symKey, r.buyerEphemeral, r.buyerWrapNonce)))
  {
    var hashT := Hash(p, CanonicalBytes(document));
    ProtectedDocFields(PyStr(TxIdSource(document, r.uuidHex)), EncryptAesGcmWith(p, r.symKey, CanonicalBytes(document), hashT, r.nonce),
                       EkMap(sellerName, WrapKeyWith(p, sellerPublic, r.symKey, r.sellerEphemeral, r.sellerWrapNonce),
                             buyerName, WrapKeyWith(p, buyerPublic, r.symKey, r.buyerEphemeral, r.buyerWrapNonce)),
                       hashT, Sign(p, signing, hashT), r.createdAt);
  }

  /** The ten fields of a protected dict; hash_T is the SHA-256 of the canonical document. */
  lemma ProtectedShape(p: Primitives, document: Dict, sellerName: string, sellerPublic: bytes, buyerName: string,
                       buyerPublic: bytes, signing: bytes, r: ProtectRandomness)
    ensures var d := Protected(p, document, sellerName, sellerPublic, buyerName, buyerPublic, signing, r);
      d.Keys == ProtectedFields &&
      B64Field(d, "hash_T") == Ok(Hash(p, CanonicalBytes(document))) &&
      EkMapOf(d).JObject? && EkMapOf(d).fields.Keys == {sellerName, buyerName} &&
      Get(d, "sig_buyer") == JNull &&
      d["tx_id"] == JString(PyStr(TxIdSource(document, r.uuidHex))) && d["created_at"] == JString(r.createdAt) &&
      d["meta"] == Meta()
  {
    var ekSeller := WrapKeyWith(p, sellerPublic, r.symKey, r.sellerEphemeral, r.sellerWrapNonce);
    var ekBuyer := WrapKeyWith(p, buyerPublic, r.symKey, r.buyerEphemeral, r.buyerWrapNonce);
    var ekMap := EkMap(sellerName, ekSeller, buyerName, ekBuyer);
    var hashT := Hash(p, CanonicalBytes(document));
    var sealed := EncryptAesGcmWith(p, r.symKey, CanonicalBytes(document), hashT, r.nonce);
    var txId := PyStr(TxIdSource(document, r.uuidHex));
    ProtectedDocKeys(txId, sealed, ekMap, hashT, Sign(p, signing, hashT), r.createdAt);
    ProtectedDocFields(txId, sealed, ekMap, hashT, Sign(p, signing, hashT), r.createdAt);
    ProtectedDocBytes(txId, sealed, ekMap, hashT, Sign(p, signing, hashT), r.createdAt);
    EkMapEntries(sellerName, ekSeller, buyerName, ekBuyer);
  }

  /** `protect` returns the ten fields of a protected transaction; hash_T is the SHA-256 of the canonical document. */
  lemma ProtectShape(p: Primitives, document: Dict, seller: CompanyKeys, buyer: CompanyKeys, r: ProtectRandomness)
    requires Protect(p, document, seller, buyer, r).Ok?
    ensures var d := Protect(p, document, seller, buyer, r).value;
      d.Keys == ProtectedFields &&
      B64Field(d, "hash_T") == Ok(Hash(p, CanonicalBytes(document))) &&
      EkMapOf(d).JObject? && EkMapOf(d).fields.Keys == {SellerName(seller), BuyerName(buyer)} &&
      Get(d, "sig_buyer") == JNull &&
      d["tx_id"] == JString(PyStr(TxIdSource(document, r.uuidHex))) && d["created_at"] == JString(r.createdAt) &&
      d["meta"] == Meta()
  {
    ProtectOk(p, document, seller, buyer, r);
    ProtectedShape(p, document, SellerName(seller), seller.encryptionPublic.value, BuyerName(buyer), buyer.encryptionPublic.value,
                   seller.signingPrivate.value, r);
  }

  // ---------------------------------------------------------------------------------------------
  // unprotect

  /** `unprotect` once the wrapped key is unwrapped and the fields are decoded. */
  lemma UnprotectSteps(p: Primitives, doc: Dict, keys: CompanyKeys, name: string, share: Option<Dict>,
                       wrapped: bytes, symKey: bytes, ct: bytes, tag: bytes, nonce: bytes, hashT: bytes)
    requires SelectWrappedKey(doc, name, share) == Ok(wrapped)
    requires keys.encryptionPrivate.Some? && UnwrapKey(p, keys.encryptionPrivate.value, wrapped) == Ok(symKey)
    requires B64Field(doc, "ciphertext") == Ok(ct) && B64Field(doc, "tag") == Ok(tag)
    requires B64Field(doc, "nonce") == Ok(nonce) && B64Field(doc, "hash_T") == Ok(hashT)
    ensures DecryptAesGcm(p, symKey, ct, tag, nonce, hashT).Err? ==>
              Unprotect(p, doc, keys, name, share) == Err(DecryptAesGcm(p, symKey, ct, tag, nonce, hashT).error)
    ensures DecryptAesGcm(p, symKey, ct, tag, nonce, hashT).Ok? ==>
              Unprotect(p, doc, keys, name, share) == JsonParse.LoadsBytes(DecryptAesGcm(p, symKey, ct, tag, nonce, hashT).value)
  {
  }

  /** `unprotect` raises what `unwrap_key` raises. */
  lemma UnprotectUnwrapFails(p: Primitives, doc: Dict, keys: CompanyKeys, name: string, share: Option<Dict>, wrapped: bytes)
    requires SelectWrappedKey(doc, name, share) == Ok(wrapped)
    requires keys.encryptionPrivate.Some? && UnwrapKey(p, keys.encryptionPrivate.value, wrapped).Err?
    ensures Unprotect(p, doc, keys, name, share) == Err(UnwrapKey(p, keys.encryptionPrivate.value, wrapped).error)
  {
  }

  /** Without a share record, a name missing from an ek_map dict is a KeyError. */
  lemma UnprotectNoEntry(p: Primitives, doc: Dict, keys: CompanyKeys, name: string)
    requires EkMapOf(doc).JObject? && name !in EkMapOf(doc).fields
    ensures Unprotect(p, doc, keys, name, None) == Err(KeyError(NoWrappedKey(name)))
  {
  }

  /** Whoever unwraps the transaction key of a protected dict reads the document back. */
  lemma ReadProtected(p: Primitives, document: Dict, symKey: bytes, nonce: bytes, txId: string, ekMap: Dict, sigSeller: bytes,
                      createdAt: string, keys: CompanyKeys, name: string, share: Option<Dict>, wrapped: bytes)
    requires Ideal(p) && |nonce| == NonceLength
    requires var hashT := Hash(p, CanonicalBytes(document));
      var d := ProtectedDoc(txId, EncryptAesGcmWith(p, symKey, CanonicalBytes(document), hashT, nonce), ekMap, hashT, sigSeller, createdAt);
      SelectWrappedKey(d, name, share) == Ok(wrapped)
    requires keys.encryptionPrivate.Some? && UnwrapKey(p, keys.encryptionPrivate.value, wrapped) == Ok(symKey)
    ensures var hashT := Hash(p, CanonicalBytes(document));
      var d := ProtectedDoc(txId, EncryptAesGcmWith(p, symKey, CanonicalBytes(document), hashT, nonce), ekMap, hashT, sigSeller, createdAt);
      Unprotect(p, d, keys, name, share) == Ok(JObject(document))
  {
    var docBytes := CanonicalBytes(document);
    var hashT := Hash(p, docBytes);
    var sealed := EncryptAesGcmWith(p, symKey, docBytes, hashT, nonce);
    var d := ProtectedDoc(txId, sealed, ekMap, hashT, sigSeller, createdAt);
    ProtectedDocBytes(txId, sealed, ekMap, hashT, sigSeller, createdAt);
    AeadRoundTrip(p, symKey, docBytes, hashT, nonce);
    UnprotectSteps(p, d, keys, name, share, wrapped, symKey, sealed.0, sealed.1, sealed.2, hashT);
    JsonParse.LoadsCanonicalBytes(document);
  }

  /** The key in the ek_map entry of `name`, wrapped by `wrap_key`, is the transaction key. */
  lemma SelectEntry(p: Primitives, d: Dict, ekMap: Dict, name: string, recipientPrivate: bytes, symKey: bytes,
                    ephemeral: bytes, wrapNonce: bytes)
    requires Ideal(p) && |wrapNonce| == NonceLength && EkMapOf(d) == JObject(ekMap)
    requires name in ekMap && ekMap[name] == B64Value(WrapKeyWith(p, p.x25519PublicPem(recipientPrivate), symKey, ephemeral, wrapNonce))
    ensures SelectWrappedKey(d, name, None) == Ok(WrapKeyWith(p, p.x25519PublicPem(recipientPrivate), symKey, ephemeral, wrapNonce))
    ensures UnwrapKey(p, recipientPrivate, SelectWrappedKey(d, name, None).value) == Ok(symKey)
  {
    B64ValueRoundTrip(WrapKeyWith(p, p.x25519PublicPem(recipientPrivate), symKey, ephemeral, wrapNonce));
    UnwrapWrap(p, recipientPrivate, symKey, ephemeral, wrapNonce);
  }

  /** The buyer's entry of a protected dict, opened with the buyer's private key, gives the document back. */
  lemma ProtectedBuyerReads(p: Primitives, document: Dict, sellerName: string, sellerPublic: bytes, buyerName: string,
                            buyerPrivate: bytes, signing: bytes, r: ProtectRandomness, keys: CompanyKeys)
    requires Ideal(p) && ProtectDraws(r) && keys.encryptionPrivate == Some(buyerPrivate)
    ensures var d := Protected(p, document, sellerName, sellerPublic, buyerName, p.x25519PublicPem(buyerPrivate), signing, r);
      Unprotect(p, d, keys, buyerName, None) == Ok(JObject(document))
  {
    var ekSeller := WrapKeyWith(p, sellerPublic, r.symKey, r.sellerEphemeral, r.sellerWrapNonce);
    var ekBuyer := WrapKeyWith(p, p.x25519PublicPem(buyerPrivate), r.symKey, r.buyerEphemeral, r.buyerWrapNonce);
    var ekMap := EkMap(sellerName, ekSeller, buyerName, ekBuyer);
    var hashT := Hash(p, CanonicalBytes(document));
    var sealed := EncryptAesGcmWith(p, r.symKey, CanonicalBytes(document), hashT, r.nonce);
    var txId := PyStr(TxIdSource(document, r.uuidHex));
    var d := ProtectedDoc(txId, sealed, ekMap, hashT, Sign(p, signing, hashT), r.createdAt);
    ProtectedDocFields(txId, sealed, ekMap, hashT, Sign(p, signing, hashT), r.createdAt);
    EkMapEntries(sellerName, ekSeller, buyerName, ekBuyer);
    SelectEntry(p, d, ekMap, buyerName, buyerPrivate, r.symKey, r.buyerEphemeral, r.buyerWrapNonce);
    ReadProtected(p, document, r.symKey, r.nonce, txId, ekMap, Sign(p, signing, hashT), r.createdAt, keys, buyerName, None, ekBuyer);
  }

  /** The seller's entry of a protected dict, opened with the seller's private key, gives the document back. */
  lemma ProtectedSellerReads(p: Primitives, document: Dict, sellerName: string, sellerPrivate: bytes, buyerName: string,
                             buyerPublic: bytes, signing: bytes, r: ProtectRandomness, keys: CompanyKeys)
    requires Ideal(p) && ProtectDraws(r) && keys.encryptionPrivate == Some(sellerPrivate) && sellerName != buyerName
    ensures var d := Protected(p, document, sellerName, p.x25519PublicPem(sellerPrivate), buyerName, buyerPublic, signing, r);
      Unprotect(p, d, keys, sellerName, None) == Ok(JObject(document))
  {
    var ekSeller := WrapKeyWith(p, p.x25519PublicPem(sellerPrivate), r.symKey, r.sellerEphemeral, r.sellerWrapNonce);
    var ekBuyer := WrapKeyWith(p, buyerPublic, r.symKey, r.buyerEphemeral, r.buyerWrapNonce);
    var ekMap := EkMap(sellerName, ekSeller, buyerName, ekBuyer);
    var hashT := Hash(p, CanonicalBytes(document));
    var sealed := EncryptAesGcmWith(p, r.symKey, CanonicalBytes(document), hashT, r.nonce);
    var txId := PyStr(TxIdSource(document, r.uuidHex));
    var d := ProtectedDoc(txId, sealed, ekMap, hashT, Sign(p, signing, hashT), r.createdAt);
    ProtectedDocFields(txId, sealed, ekMap, hashT, Sign(p, signing, hashT), r.createdAt);
    EkMapEntries(sellerName, ekSeller, buyerName, ekBuyer);
    SelectEntry(p, d, ekMap, sellerName, sellerPrivate, r.symKey, r.sellerEphemeral, r.sellerWrapNonce);
    ReadProtected(p, document, r.symKey, r.nonce, txId, ekMap, Sign(p, signing, hashT), r.createdAt, keys, sellerName, None, ekSeller);
  }

  /** The buyer reads the protected document back with its own entry of ek_map. */
  lemma BuyerUnprotects(p: Primitives, document: Dict, seller: CompanyKeys, buyer: CompanyKeys, r: ProtectRandomness)
    requires Ideal(p) && ProtectDraws(r)
    requires Protect(p, document, seller, buyer, r).Ok?
    requires buyer.encryptionPrivate.Some? && buyer.encryptionPublic == Some(p.x25519PublicPem(buyer.encryptionPrivate.value))
    ensures Unprotect(p, Protect(p, document, seller, buyer, r).value, buyer, BuyerName(buyer), None) == Ok(JObject(document))
  {
    ProtectOk(p, document, seller, buyer, r);
    ProtectedBuyerReads(p, document, SellerName(seller), seller.encryptionPublic.value, BuyerName(buyer),
                        buyer.encryptionPrivate.value, seller.signingPrivate.value, r, buyer);
  }

  /** The seller reads the protected document back with its own entry, when the two names differ. */
  lemma SellerUnprotects(p: Primitives, document: Dict, seller: CompanyKeys, buyer: CompanyKeys, r: ProtectRandomness)
    requires Ideal(p) && ProtectDraws(r)
    requires Protect(p, document, seller, buyer, r).Ok? && SellerName(seller) != BuyerName(buyer)
    requires seller.encryptionPrivate.Some? && seller.encryptionPublic == Some(p.x25519PublicPem(seller.encryptionPrivate.value))
    ensures Unprotect(p, Protect(p, document, seller, buyer, r).value, seller, SellerName(seller), None) == Ok(JObject(document))
  {
    ProtectOk(p, document, seller, buyer, r);
    ProtectedSellerReads(p, document, SellerName(seller), seller.encryptionPrivate.value, BuyerName(buyer),
                         buyer.encryptionPublic.value, seller.signingPrivate.value, r, seller);
  }

  /** A company with no entry in ek_map cannot unprotect without a share record. */
  lemma OutsiderHasNoEntry(p: Primitives, document: Dict, seller: CompanyKeys, buyer: CompanyKeys, r: ProtectRandomness,
                           keys: CompanyKeys, name: string)
    requires Protect(p, document, seller, buyer, r).Ok? && name != SellerName(seller) && name != BuyerName(buyer)
    ensures Unprotect(p, Protect(p, document, seller, buyer, r).value, keys, name, None) == Err(KeyError(NoWrappedKey(name)))
  {
    ProtectOk(p, document, seller, buyer, r);
    var sellerPublic, buyerPublic := seller.encryptionPublic.value, buyer.encryptionPublic.value;
    var d := Protected(p, document, SellerName(seller), sellerPublic, BuyerName(buyer), buyerPublic, seller.signingPrivate.value, r);
    ProtectedEkMap(p, document, SellerName(seller), sellerPublic, BuyerName(buyer), buyerPublic, seller.signingPrivate.value, r);
    EkMapMissing(SellerName(seller), WrapKeyWith(p, sellerPublic, r.symKey, r.sellerEphemeral, r.sellerWrapNonce),
                 BuyerName(buyer), WrapKeyWith(p, buyerPublic, r.symKey, r.buyerEphemeral, r.buyerWrapNonce), name);
    UnprotectNoEntry(p, d, keys, name);
  }

  /** The buyer's entry of a protected dict opened with the private key of another key pair fails authentication. */
  lemma ProtectedWrongKey(p: Primitives, document: Dict, sellerName: string, sellerPublic: bytes, buyerName: string,
                          buyerPrivate: bytes, signing: bytes, r: ProtectRandomness, keys: CompanyKeys)
    requires Ideal(p) && ProtectDraws(r)
    requires keys.encryptionPrivate.Some? && p.x25519PublicPem(keys.encryptionPrivate.value) != p.x25519PublicPem(buyerPrivate)
    ensures var d := Protected(p, document, sellerName, sellerPublic, buyerName, p.x25519PublicPem(buyerPrivate), signing, r);
      Unprotect(p, d, keys, buyerName, None) == Err(InvalidTag)
  {
    var ekSeller := WrapKeyWith(p, sellerPublic, r.symKey, r.sellerEphemeral, r.sellerWrapNonce);
    var ekBuyer := WrapKeyWith(p, p.x25519PublicPem(buyerPrivate), r.symKey, r.buyerEphemeral, r.buyerWrapNonce);
    var d := Protected(p, document, sellerName, sellerPublic, buyerName, p.x25519PublicPem(buyerPrivate), signing, r);
    ProtectedEkMap(p, document, sellerName, sellerPublic, buyerName, p.x25519PublicPem(buyerPrivate), signing, r);
    EkMapEntries(sellerName, ekSeller, buyerName, ekBuyer);
    B64ValueRoundTrip(ekBuyer);
    assert SelectWrappedKey(d, buyerName, None) == Ok(ekBuyer);
    UnwrapWrongKey(p, buyerPrivate, keys.encryptionPrivate.value, r.symKey, r.buyerEphemeral, r.buyerWrapNonce);
    UnprotectUnwrapFails(p, d, keys, buyerName, None, ekBuyer);
  }

  /** The buyer's entry opened with the private key of another key pair fails authentication. */
  lemma WrongKeyRejected(p: Primitives, document: Dict, seller: CompanyKeys, buyer: CompanyKeys, r: ProtectRandomness,
                         buyerPrivate: bytes, keys: CompanyKeys)
    requires Ideal(p) && ProtectDraws(r)
    requires Protect(p, document, seller, buyer, r).Ok? && buyer.encryptionPublic == Some(p.x25519PublicPem(buyerPrivate))
    requires keys.encryptionPrivate.Some? && p.x25519PublicPem(keys.encryptionPrivate.value) != p.x25519PublicPem(buyerPrivate)
    ensures Unprotect(p, Protect(p, document, seller, buyer, r).value, keys, BuyerName(buyer), None) == Err(InvalidTag)
  {
    ProtectOk(p, document, seller, buyer, r);
    ProtectedWrongKey(p, document, SellerName(seller), seller.encryptionPublic.value, BuyerName(buyer), buyerPrivate,
                      seller.signingPrivate.value, r, keys);
  }

  /** Replacing hash_T in a protected dict by any other digest makes decryption fail: hash_T is the associated data. */
  lemma TamperedHashRejected(p: Primitives, document: Dict, symKey: bytes, nonce: bytes, txId: string, ekMap: Dict,
                             sigSeller: bytes, createdAt: string, forged: bytes, keys: CompanyKeys, name: string,
                             share: Option<Dict>, wrapped: bytes)
    requires Ideal(p) && |nonce| == NonceLength && forged != Hash(p, CanonicalBytes(document))
    requires var sealed := EncryptAesGcmWith(p, symKey, CanonicalBytes(document), Hash(p, CanonicalBytes(document)), nonce);
      SelectWrappedKey(ProtectedDoc(txId, sealed, ekMap, forged, sigSeller, createdAt), name, share) == Ok(wrapped)
    requires keys.encryptionPrivate.Some? && UnwrapKey(p, keys.encryptionPrivate.value, wrapped) == Ok(symKey)
    ensures var sealed := EncryptAesGcmWith(p, symKey, CanonicalBytes(document), Hash(p, CanonicalBytes(document)), nonce);
      Unprotect(p, ProtectedDoc(txId, sealed, ekMap, forged, sigSeller, createdAt), keys, name, share) == Err(InvalidTag)
  {
    var docBytes := CanonicalBytes(document);
    var hashT := Hash(p, docBytes);
    var sealed := EncryptAesGcmWith(p, symKey, docBytes, hashT, nonce);
    var d := ProtectedDoc(txId, sealed, ekMap, forged, sigSeller, createdAt);
    ProtectedDocBytes(txId, sealed, ekMap, forged, sigSeller, createdAt);
    AeadWrongContext(p, symKey, symKey, docBytes, hashT, forged, nonce);
    UnprotectSteps(p, d, keys, name, share, wrapped, symKey, sealed.0, sealed.1, sealed.2, forged);
  }

  /** Replacing hash_T in a protected dict is the same as protecting with that digest in its place. */
  lemma ReplaceHash(txId: string, sealed: (bytes, bytes, bytes), ekMap: Dict, hashT: bytes, sigSeller: bytes, createdAt: string,
                    forged: bytes)
    ensures ProtectedDoc(txId, sealed, ekMap, hashT, sigSeller, createdAt)["hash_T" := B64Value(forged)] ==
            ProtectedDoc(txId, sealed, ekMap, forged, sigSeller, createdAt)
  {
  }

  /** The buyer cannot read a protected dict whose hash_T was replaced by another digest. */
  lemma ProtectedTampered(p: Primitives, document: Dict, sellerName: string, sellerPublic: bytes, buyerName: string,
                          buyerPrivate: bytes, signing: bytes, r: ProtectRandomness, keys: CompanyKeys, forged: bytes)
    requires Ideal(p) && ProtectDraws(r) && keys.encryptionPrivate == Some(buyerPrivate)
    requires forged != Hash(p, CanonicalBytes(document))
    ensures var d := Protected(p, document, sellerName, sellerPublic, buyerName, p.x25519PublicPem(buyerPrivate), signing, r);
      Unprotect(p, d["hash_T" := B64Value(forged)], keys, buyerName, None) == Err(InvalidTag)
  {
    var ekSeller := WrapKeyWith(p, sellerPublic, r.symKey, r.sellerEphemeral, r.sellerWrapNonce);
    var ekBuyer := WrapKeyWith(p, p.x25519PublicPem(buyerPrivate), r.symKey, r.buyerEphemeral, r.buyerWrapNonce);
    var ekMap := EkMap(sellerName, ekSeller, buyerName, ekBuyer);
    var hashT := Hash(p, CanonicalBytes(document));
    var sealed := EncryptAesGcmWith(p, r.symKey, CanonicalBytes(document), hashT, r.nonce);
    var txId := PyStr(TxIdSource(document, r.uuidHex));
    var sig := Sign(p, signing, hashT);
    var tampered := ProtectedDoc(txId, sealed, ekMap, forged, sig, r.createdAt);
    ReplaceHash(txId, sealed, ekMap, hashT, sig, r.createdAt, forged);
    ProtectedDocFields(txId, sealed, ekMap, forged, sig, r.createdAt);
    EkMapEntries(sellerName, ekSeller, buyerName, ekBuyer);
    SelectEntry(p, tampered, ekMap, buyerName, buyerPrivate, r.symKey, r.buyerEphemeral, r.buyerWrapNonce);
    TamperedHashRejected(p, document, r.symKey, r.nonce, txId, ekMap, sig, r.createdAt, forged, keys, buyerName, None, ekBuyer);
  }

  /** A protected transaction whose hash_T was replaced by another digest no longer decrypts for the buyer. */
  lemma TamperedProtectRejected(p: Primitives, document: Dict, seller: CompanyKeys, buyer: CompanyKeys, r: ProtectRandomness,
                                forged: bytes)
    requires Ideal(p) && ProtectDraws(r) && Protect(p, document, seller, buyer, r).Ok?
    requires buyer.encryptionPrivate.Some? && buyer.encryptionPublic == Some(p.x25519PublicPem(buyer.encryptionPrivate.value))
    requires forged != Hash(p, CanonicalBytes(document))
    ensures Unprotect(p, Protect(p, document, seller, buyer, r).value["hash_T" := B64Value(forged)], buyer, BuyerName(buyer), None) ==
            Err(InvalidTag)
  {
    ProtectOk(p, document, seller, buyer, r);
    ProtectedTampered(p, document, SellerName(seller), seller.encryptionPublic.value, BuyerName(buyer),
                      buyer.encryptionPrivate.value, seller.signingPrivate.value, r, buyer, forged);
  }

  /** Whatever `unprotect` returns was sealed under the document's nonce with hash_T as associated data. */
  lemma UnprotectIntegrity(p: Primitives, doc: Dict, keys: CompanyKeys, name: string, share: Option<Dict>)
    requires Ideal(p) && Unprotect(p, doc, keys, name, share).Ok?
    ensures B64Field(doc, "ciphertext").Ok? && B64Field(doc, "tag").Ok? && B64Field(doc, "nonce").Ok? && B64Field(doc, "hash_T").Ok?
    ensures exists symKey: bytes, plaintext: bytes ::
              B64Field(doc, "ciphertext").value + B64Field(doc, "tag").value ==
                p.aeadSeal(symKey, B64Field(doc, "nonce").value, plaintext, B64Field(doc, "hash_T").value) &&
              JsonParse.LoadsBytes(plaintext) == Unprotect(p, doc, keys, name, share)
  {
    var wrapped := SelectWrappedKey(doc, name, share).value;
    var symKey := UnwrapKey(p, keys.encryptionPrivate.value, wrapped).value;
    var ct, tag := B64Field(doc, "ciphertext").value, B64Field(doc, "tag").value;
    var nonce, hashT := B64Field(doc, "nonce").value, B64Field(doc, "hash_T").value;
    UnprotectSteps(p, doc, keys, name, share, wrapped, symKey, ct, tag, nonce, hashT);
    DecryptIntegrity(p, symKey, ct, tag, nonce, hashT);
  }

  // ---------------------------------------------------------------------------------------------
  // buyer_sign

  /** On a protected dict, `buyer_sign` signs exactly when the key it is given is the seller's. */
  lemma ProtectedBuyerSign(p: Primitives, document: Dict, sellerName: string, sellerPublic: bytes, buyerName: string,
                           buyerPublic: bytes, signing: bytes, r: ProtectRandomness, buyer: CompanyKeys, sellerKey: bytes)
    requires Ideal(p)
    ensures var d := Protected(p, document, sellerName, sellerPublic, buyerName, buyerPublic, signing, r);
      var signed := BuyerSign(p, d, buyer, p.ed25519PublicPem(sellerKey));
      (signed.Ok? <==> p.ed25519PublicPem(sellerKey) == p.ed25519PublicPem(signing) && buyer.signingPrivate.Some?) &&
      (p.ed25519PublicPem(sellerKey) != p.ed25519PublicPem(signing) ==> signed == Err(SignatureRefused))
  {
    var hashT := Hash(p, CanonicalBytes(document));
    var ekMap := EkMap(sellerName, WrapKeyWith(p, sellerPublic, r.symKey, r.sellerEphemeral, r.sellerWrapNonce),
                       buyerName, WrapKeyWith(p, buyerPublic, r.symKey, r.buyerEphemeral, r.buyerWrapNonce));
    var sealed := EncryptAesGcmWith(p, r.symKey, CanonicalBytes(document), hashT, r.nonce);
    ProtectedDocBytes(PyStr(TxIdSource(document, r.uuidHex)), sealed, ekMap, hashT, Sign(p, signing, hashT), r.createdAt);
    SignVerify(p, signing, sellerKey, hashT, hashT);
  }

  /** `buyer_sign` signs with the buyer's key only after the seller's signature over hash_T verifies. */
  lemma BuyerSignsProtected(p: Primitives, document: Dict, seller: CompanyKeys, buyer: CompanyKeys, r: ProtectRandomness,
                            sellerKey: bytes)
    requires Ideal(p) && Protect(p, document, seller, buyer, r).Ok?
    ensures var signed := BuyerSign(p, Protect(p, document, seller, buyer, r).value, buyer, p.ed25519PublicPem(sellerKey));
      (signed.Ok? <==> p.ed25519PublicPem(sellerKey) == p.ed25519PublicPem(seller.signingPrivate.value) && buyer.signingPrivate.Some?) &&
      (p.ed25519PublicPem(sellerKey) != p.ed25519PublicPem(seller.signingPrivate.value) ==> signed == Err(SignatureRefused))
  {
    ProtectOk(p, document, seller, buyer, r);
    ProtectedBuyerSign(p, document, SellerName(seller), seller.encryptionPublic.value, BuyerName(buyer), buyer.encryptionPublic.value,
                       seller.signingPrivate.value, r, buyer, sellerKey);
  }

  /** Signing twice gives the same document: the signature is deterministic and only sig_buyer is written. */
  lemma BuyerSignIdempotent(p: Primitives, doc: Dict, buyer: CompanyKeys, sellerPublicSigning: bytes)
    requires BuyerSign(p, doc, buyer, sellerPublicSigning).Ok?
    ensures BuyerSign(p, BuyerSign(p, doc, buyer, sellerPublicSigning).value, buyer, sellerPublicSigning) ==
            BuyerSign(p, doc, buyer, sellerPublicSigning)
  {
    var signed := BuyerSign(p, doc, buyer, sellerPublicSigning).value;
    assert signed["sig_buyer" := signed["sig_buyer"]] == signed;
  }

  // ---------------------------------------------------------------------------------------------
  // check

  /** What `check` reports on a dict `protect` built: sig_buyer is None, so no buyer verdict. */
  lemma CheckProtectedDoc(p: Primitives, txId: string, sealed: (bytes, bytes, bytes), ekMap: Dict, hashT: bytes,
                          sigSeller: bytes, createdAt: string, sellerPublicSigning: bytes, buyerPublicSigning: Option<bytes>,
                          records: seq<Dict>, keys: map<string, bytes>)
    ensures var d := ProtectedDoc(txId, sealed, ekMap, hashT, sigSeller, createdAt);
      var report := CheckSpec(p, d, sellerPublicSigning, buyerPublicSigning, records, keys);
      (report.Ok? <==> ShareEntries(p, records, keys).Ok?) &&
      (report.Ok? ==>
         report.value == CheckReport(Verify(p, sellerPublicSigning, hashT, sigSeller), None, ShareEntries(p, records, keys).value))
  {
    ProtectedDocBytes(txId, sealed, ekMap, hashT, sigSeller, createdAt);
    ProtectedDocFields(txId, sealed, ekMap, hashT, sigSeller, createdAt);
  }

  /** `check` on a protected dict: the seller's signature verifies exactly under the seller's key. */
  lemma ProtectedCheck(p: Primitives, document: Dict, sellerName: string, sellerPublic: bytes, buyerName: string,
                       buyerPublic: bytes, signing: bytes, r: ProtectRandomness, sellerKey: bytes, buyerPublicSigning: Option<bytes>)
    requires Ideal(p)
    ensures var d := Protected(p, document, sellerName, sellerPublic, buyerName, buyerPublic, signing, r);
      CheckSpec(p, d, p.ed25519PublicPem(sellerKey), buyerPublicSigning, [], map[]) ==
      Ok(CheckReport(p.ed25519PublicPem(sellerKey) == p.ed25519PublicPem(signing), None, []))
  {
    var hashT := Hash(p, CanonicalBytes(document));
    var ekMap := EkMap(sellerName, WrapKeyWith(p, sellerPublic, r.symKey, r.sellerEphemeral, r.sellerWrapNonce),
                       buyerName, WrapKeyWith(p, buyerPublic, r.symKey, r.buyerEphemeral, r.buyerWrapNonce));
    var sealed := EncryptAesGcmWith(p, r.symKey, CanonicalBytes(document), hashT, r.nonce);
    CheckProtectedDoc(p, PyStr(TxIdSource(document, r.uuidHex)), sealed, ekMap, hashT, Sign(p, signing, hashT), r.createdAt,
                      p.ed25519PublicPem(sellerKey), buyerPublicSigning, [], map[]);
    SignVerify(p, signing, sellerKey, hashT, hashT);
  }

  /** `check` on a freshly protected transaction: the seller's signature verifies exactly under the seller's key. */
  lemma CheckProtected(p: Primitives, document: Dict, seller: CompanyKeys, buyer: CompanyKeys, r: ProtectRandomness,
                       sellerKey: bytes, buyerPublicSigning: Option<bytes>)
    requires Ideal(p) && Protect(p, document, seller, buyer, r).Ok?
    ensures CheckSpec(p, Protect(p, document, seller, buyer, r).value, p.ed25519PublicPem(sellerKey), buyerPublicSigning, [], map[]) ==
            Ok(CheckReport(p.ed25519PublicPem(sellerKey) == p.ed25519PublicPem(seller.signingPrivate.value), None, []))
  {
    ProtectOk(p, document, seller, buyer, r);
    ProtectedCheck(p, document, SellerName(seller), seller.encryptionPublic.value, BuyerName(buyer), buyer.encryptionPublic.value,
                   seller.signingPrivate.value, r, sellerKey, buyerPublicSigning);
  }

  /** A hash_T replaced by any other digest fails the seller's signature check. */
  lemma CheckTamperedHash(p: Primitives, txId: string, sealed: (bytes, bytes, bytes), ekMap: Dict, hashT: bytes,
                          signingKey: bytes, createdAt: string, forged: bytes, sellerKey: bytes, buyerPublicSigning: Option<bytes>)
    requires Ideal(p) && forged != hashT
    ensures CheckSpec(p, ProtectedDoc(txId, sealed, ekMap, forged, Sign(p, signingKey, hashT), createdAt),
                      p.ed25519PublicPem(sellerKey), buyerPublicSigning, [], map[]) == Ok(CheckReport(false, None, []))
  {
    CheckProtectedDoc(p, txId, sealed, ekMap, forged, Sign(p, signingKey, hashT), createdAt,
                      p.ed25519PublicPem(sellerKey), buyerPublicSigning, [], map[]);
    SignVerify(p, signingKey, sellerKey, hashT, forged);
  }

  /** Replacing sig_seller in a protected dict is the same as protecting with that signature in its place. */
  lemma ReplaceSellerSig(txId: string, sealed: (bytes, bytes, bytes), ekMap: Dict, hashT: bytes, sigSeller: bytes,
                         createdAt: string, forged: bytes)
    ensures ProtectedDoc(txId, sealed, ekMap, hashT, sigSeller, createdAt)["sig_seller" := B64Value(forged)] ==
            ProtectedDoc(txId, sealed, ekMap, hashT, forged, createdAt)
  {
  }

  /**
   * A protected dict whose sig_seller was replaced by anything but the seller's signature of
   * hash_T: `buyer_sign` refuses it, and `check` reports the seller's signature as not verifying.
   */
  lemma ForgedSellerSigDoc(p: Primitives, txId: string, sealed: (bytes, bytes, bytes), ekMap: Dict, hashT: bytes,
                           signing: bytes, createdAt: string, forged: bytes, buyer: CompanyKeys, buyerPublicSigning: Option<bytes>)
    requires Ideal(p) && forged != Sign(p, signing, hashT)
    ensures var d := ProtectedDoc(txId, sealed, ekMap, hashT, Sign(p, signing, hashT), createdAt)["sig_seller" := B64Value(forged)];
      BuyerSign(p, d, buyer, p.ed25519PublicPem(signing)) == Err(SignatureRefused) &&
      CheckSpec(p, d, p.ed25519PublicPem(signing), buyerPublicSigning, [], map[]) == Ok(CheckReport(false, None, []))
  {
    ReplaceSellerSig(txId, sealed, ekMap, hashT, Sign(p, signing, hashT), createdAt, forged);
    ProtectedDocBytes(txId, sealed, ekMap, hashT, forged, createdAt);
    CheckProtectedDoc(p, txId, sealed, ekMap, hashT, forged, createdAt, p.ed25519PublicPem(signing), buyerPublicSigning, [], map[]);
    ForgedSignatureRejected(p, signing, hashT, forged);
  }

  /** The same for a dict `Protected` built: a replaced seller signature is refused and fails `check`. */
  lemma ProtectedForgedSellerSig(p: Primitives, document: Dict, sellerName: string, sellerPublic: bytes, buyerName: string,
                                 buyerPublic: bytes, signing: bytes, r: ProtectRandomness, forged: bytes, buyer: CompanyKeys,
                                 buyerPublicSigning: Option<bytes>)
    requires Ideal(p) && forged != Sign(p, signing, Hash(p, CanonicalBytes(document)))
    ensures var d := Protected(p, document, sellerName, sellerPublic, buyerName, buyerPublic, signing, r)["sig_seller" := B64Value(forged)];
      BuyerSign(p, d, buyer, p.ed25519PublicPem(signing)) == Err(SignatureRefused) &&
      CheckSpec(p, d, p.ed25519PublicPem(signing), buyerPublicSigning, [], map[]) == Ok(CheckReport(false, None, []))
  {
    var hashT := Hash(p, CanonicalBytes(document));
    var ekMap := EkMap(sellerName, WrapKeyWith(p, sellerPublic, r.symKey, r.sellerEphemeral, r.sellerWrapNonce),
                       buyerName, WrapKeyWith(p, buyerPublic, r.symKey, r.buyerEphemeral, r.buyerWrapNonce));
    var sealed := EncryptAesGcmWith(p, r.symKey, CanonicalBytes(document), hashT, r.nonce);
    ForgedSellerSigDoc(p, PyStr(TxIdSource(document, r.uuidHex)), sealed, ekMap, hashT, signing, r.createdAt, forged,
                       buyer, buyerPublicSigning);
  }

  /**
   * A transaction `protect` built, whose sig_seller is then replaced by anything but the seller's
   * signature of hash_T (`b64e(b"bad-signature")`, say): `buyer_sign` refuses it under the
   * seller's public key, and `check` reports seller_sig_ok False.
   */
  lemma ForgedSellerSigRejected(p: Primitives, document: Dict, seller: CompanyKeys, buyer: CompanyKeys, r: ProtectRandomness,
                                forged: bytes, buyerPublicSigning: Option<bytes>)
    requires Ideal(p) && Protect(p, document, seller, buyer, r).Ok?
    requires forged != Sign(p, seller.signingPrivate.value, Hash(p, CanonicalBytes(document)))
    ensures var sellerPublic := p.ed25519PublicPem(seller.signingPrivate.value);
      var d := Protect(p, document, seller, buyer, r).value["sig_seller" := B64Value(forged)];
      BuyerSign(p, d, buyer, sellerPublic) == Err(SignatureRefused) &&
      CheckSpec(p, d, sellerPublic, buyerPublicSigning, [], map[]) == Ok(CheckReport(false, None, []))
  {
    ProtectOk(p, document, seller, buyer, r);
    ProtectedForgedSellerSig(p, document, SellerName(seller), seller.encryptionPublic.value, BuyerName(buyer),
                             buyer.encryptionPublic.value, seller.signingPrivate.value, r, forged, buyer, buyerPublicSigning);
  }

  /** A sig_buyer that is not the buyer key pair's signature of hash_T gets the buyer verdict False. */
  lemma CheckForgedBuyerSig(p: Primitives, doc: Dict, hashT: bytes, sigSeller: bytes, forged: bytes, sellerPublicSigning: bytes,
                            buyerKey: bytes, records: seq<Dict>, keys: map<string, bytes>)
    requires Ideal(p) && B64Field(doc, "hash_T") == Ok(hashT) && B64Field(doc, "sig_seller") == Ok(sigSeller)
    requires |forged| > 0 && forged != Sign(p, buyerKey, hashT)
    requires p.ed25519PublicPem(buyerKey) != [] && ShareEntries(p, records, keys).Ok?
    ensures CheckSpec(p, doc["sig_buyer" := B64Value(forged)], sellerPublicSigning, Some(p.ed25519PublicPem(buyerKey)), records, keys) ==
            Ok(CheckReport(Verify(p, sellerPublicSigning, hashT, sigSeller), Some(false), ShareEntries(p, records, keys).value))
  {
    CheckSignedDoc(p, doc, hashT, sigSeller, forged, sellerPublicSigning, p.ed25519PublicPem(buyerKey), records, keys);
    ForgedSignatureRejected(p, buyerKey, hashT, forged);
  }

  /** `check` on a document the buyer signed: both verdicts, each under the key it is given. */
  lemma CheckSignedDoc(p: Primitives, doc: Dict, hashT: bytes, sigSeller: bytes, sigBuyer: bytes, sellerPublicSigning: bytes,
                       buyerPublicSigning: bytes, records: seq<Dict>, keys: map<string, bytes>)
    requires B64Field(doc, "hash_T") == Ok(hashT) && B64Field(doc, "sig_seller") == Ok(sigSeller)
    requires |sigBuyer| > 0 && buyerPublicSigning != [] && ShareEntries(p, records, keys).Ok?
    ensures CheckSpec(p, doc["sig_buyer" := B64Value(sigBuyer)], sellerPublicSigning, Some(buyerPublicSigning), records, keys) ==
            Ok(CheckReport(Verify(p, sellerPublicSigning, hashT, sigSeller), Some(Verify(p, buyerPublicSigning, hashT, sigBuyer)),
                           ShareEntries(p, records, keys).value))
  {
    var signed := doc["sig_buyer" := B64Value(sigBuyer)];
    assert B64Field(signed, "hash_T") == B64Field(doc, "hash_T");
    assert B64Field(signed, "sig_seller") == B64Field(doc, "sig_seller");
    assert |Base64.Encode(sigBuyer)| > 0;
    B64ValueRoundTrip(sigBuyer);
  }

  /** `check` on a document the buyer signed, given no buyer key: the buyer's verdict is False. */
  lemma CheckSignedNoKey(p: Primitives, doc: Dict, hashT: bytes, sigSeller: bytes, sigBuyer: bytes, sellerPublicSigning: bytes,
                         buyerPublicSigning: Option<bytes>, records: seq<Dict>, keys: map<string, bytes>)
    requires B64Field(doc, "hash_T") == Ok(hashT) && B64Field(doc, "sig_seller") == Ok(sigSeller)
    requires |sigBuyer| > 0 && (buyerPublicSigning.None? || buyerPublicSigning.value == []) && ShareEntries(p, records, keys).Ok?
    ensures CheckSpec(p, doc["sig_buyer" := B64Value(sigBuyer)], sellerPublicSigning, buyerPublicSigning, records, keys) ==
            Ok(CheckReport(Verify(p, sellerPublicSigning, hashT, sigSeller), Some(false), ShareEntries(p, records, keys).value))
  {
    var signed := doc["sig_buyer" := B64Value(sigBuyer)];
    assert B64Field(signed, "hash_T") == B64Field(doc, "hash_T");
    assert B64Field(signed, "sig_seller") == B64Field(doc, "sig_seller");
    assert |Base64.Encode(sigBuyer)| > 0;
  }

  /** After `buyer_sign` on a protected dict, `check` accepts the seller's signature and judges the buyer's. */
  lemma ProtectedBuyerSignedCheck(p: Primitives, document: Dict, sellerName: string, sellerPublic: bytes, buyerName: string,
                                  buyerPublic: bytes, signing: bytes, r: ProtectRandomness, buyer: CompanyKeys, buyerKey: bytes)
    requires Ideal(p) && buyer.signingPrivate.Some? && p.ed25519PublicPem(buyerKey) != []
    ensures var d := Protected(p, document, sellerName, sellerPublic, buyerName, buyerPublic, signing, r);
      var signed := BuyerSign(p, d, buyer, p.ed25519PublicPem(signing));
      signed.Ok? &&
      CheckSpec(p, signed.value, p.ed25519PublicPem(signing), Some(p.ed25519PublicPem(buyerKey)), [], map[]) ==
        Ok(CheckReport(true, Some(p.ed25519PublicPem(buyerKey) == p.ed25519PublicPem(buyer.signingPrivate.value)), []))
  {
    var sellerPublicSigning := p.ed25519PublicPem(signing);
    var hashT := Hash(p, CanonicalBytes(document));
    var sig := Sign(p, signing, hashT);
    var ekMap := EkMap(sellerName, WrapKeyWith(p, sellerPublic, r.symKey, r.sellerEphemeral, r.sellerWrapNonce),
                       buyerName, WrapKeyWith(p, buyerPublic, r.symKey, r.buyerEphemeral, r.buyerWrapNonce));
    var sealed := EncryptAesGcmWith(p, r.symKey, CanonicalBytes(document), hashT, r.nonce);
    var d := ProtectedDoc(PyStr(TxIdSource(document, r.uuidHex)), sealed, ekMap, hashT, sig, r.createdAt);
    ProtectedDocBytes(PyStr(TxIdSource(document, r.uuidHex)), sealed, ekMap, hashT, sig, r.createdAt);
    SignVerify(p, signing, signing, hashT, hashT);
    var sigBuyer := Sign(p, buyer.signingPrivate.value, hashT);
    assert BuyerSign(p, d, buyer, sellerPublicSigning) == Ok(d["sig_buyer" := B64Value(sigBuyer)]);
    CheckSignedDoc(p, d, hashT, sig, sigBuyer, sellerPublicSigning, p.ed25519PublicPem(buyerKey), [], map[]);
    SignVerify(p, buyer.signingPrivate.value, buyerKey, hashT, hashT);
  }

  /** After `buyer_sign`, `check` accepts the seller's signature and judges the buyer's under the key it is given. */
  lemma CheckBuyerSigned(p: Primitives, document: Dict, seller: CompanyKeys, buyer: CompanyKeys, r: ProtectRandomness,
                         buyerKey: bytes)
    requires Ideal(p) && Protect(p, document, seller, buyer, r).Ok? && buyer.signingPrivate.Some?
    requires p.ed25519PublicPem(buyerKey) != []
    ensures var sellerPublic := p.ed25519PublicPem(seller.signingPrivate.value);
      var signed := BuyerSign(p, Protect(p, document, seller, buyer, r).value, buyer, sellerPublic);
      signed.Ok? &&
      CheckSpec(p, signed.value, sellerPublic, Some(p.ed25519PublicPem(buyerKey)), [], map[]) ==
        Ok(CheckReport(true, Some(p.ed25519PublicPem(buyerKey) == p.ed25519PublicPem(buyer.signingPrivate.value)), []))
  {
    ProtectOk(p, document, seller, buyer, r);
    ProtectedBuyerSignedCheck(p, document, SellerName(seller), seller.encryptionPublic.value, BuyerName(buyer),
                              buyer.encryptionPublic.value, seller.signingPrivate.value, r, buyer, buyerKey);
  }

  /** `check` on a signed dict whose hash_T was replaced afterwards: neither signature verifies. */
  lemma CheckTamperedSignedDoc(p: Primitives, txId: string, sealed: (bytes, bytes, bytes), ekMap: Dict, hashT: bytes,
                               sellerKey: bytes, buyerKey: bytes, createdAt: string, forged: bytes, sellerVerifyKey: bytes,
                               buyerVerifyKey: bytes)
    requires Ideal(p) && forged != hashT && p.ed25519PublicPem(buyerVerifyKey) != []
    ensures var signed := ProtectedDoc(txId, sealed, ekMap, hashT, Sign(p, sellerKey, hashT), createdAt)
                            ["sig_buyer" := B64Value(Sign(p, buyerKey, hashT))];
      CheckSpec(p, signed["hash_T" := B64Value(forged)], p.ed25519PublicPem(sellerVerifyKey),
                Some(p.ed25519PublicPem(buyerVerifyKey)), [], map[]) == Ok(CheckReport(false, Some(false), []))
  {
    var sigSeller, sigBuyer := Sign(p, sellerKey, hashT), Sign(p, buyerKey, hashT);
    var d := ProtectedDoc(txId, sealed, ekMap, hashT, sigSeller, createdAt);
    var tampered := ProtectedDoc(txId, sealed, ekMap, forged, sigSeller, createdAt);
    ReplaceHash(txId, sealed, ekMap, hashT, sigSeller, createdAt, forged);
    assert d["sig_buyer" := B64Value(sigBuyer)]["hash_T" := B64Value(forged)] == tampered["sig_buyer" := B64Value(sigBuyer)];
    CheckSignedDoc(p, tampered, forged, sigSeller, sigBuyer, p.ed25519PublicPem(sellerVerifyKey), p.ed25519PublicPem(buyerVerifyKey),
                   [], map[]);
    SignVerify(p, sellerKey, sellerVerifyKey, hashT, forged);
    SignVerify(p, buyerKey, buyerVerifyKey, hashT, forged);
  }

  /** On a protected dict the buyer signed, replacing hash_T makes both signature verdicts False. */
  lemma ProtectedTamperedSignedCheck(p: Primitives, document: Dict, sellerName: string, sellerPublic: bytes, buyerName: string,
                                     buyerPublic: bytes, signing: bytes, r: ProtectRandomness, buyer: CompanyKeys, buyerKey: bytes,
                                     forged: bytes)
    requires Ideal(p) && buyer.signingPrivate.Some? && p.ed25519PublicPem(buyerKey) != []
    requires forged != Hash(p, CanonicalBytes(document))
    ensures var d := Protected(p, document, sellerName, sellerPublic, buyerName, buyerPublic, signing, r);
      var signed := BuyerSign(p, d, buyer, p.ed25519PublicPem(signing));
      signed.Ok? &&
      CheckSpec(p, signed.value["hash_T" := B64Value(forged)], p.ed25519PublicPem(signing), Some(p.ed25519PublicPem(buyerKey)),
                [], map[]) == Ok(CheckReport(false, Some(false), []))
  {
    var sellerPublicSigning := p.ed25519PublicPem(signing);
    var hashT := Hash(p, CanonicalBytes(document));
    var sig := Sign(p, signing, hashT);
    var ekMap := EkMap(sellerName, WrapKeyWith(p, sellerPublic, r.symKey, r.sellerEphemeral, r.sellerWrapNonce),
                       buyerName, WrapKeyWith(p, buyerPublic, r.symKey, r.buyerEphemeral, r.buyerWrapNonce));
    var sealed := EncryptAesGcmWith(p, r.symKey, CanonicalBytes(document), hashT, r.nonce);
    var txId := PyStr(TxIdSource(document, r.uuidHex));
    var d := ProtectedDoc(txId, sealed, ekMap, hashT, sig, r.createdAt);
    ProtectedDocBytes(txId, sealed, ekMap, hashT, sig, r.createdAt);
    SignVerify(p, signing, signing, hashT, hashT);
    var sigBuyer := Sign(p, buyer.signingPrivate.value, hashT);
    assert BuyerSign(p, d, buyer, sellerPublicSigning) == Ok(d["sig_buyer" := B64Value(sigBuyer)]);
    CheckTamperedSignedDoc(p, txId, sealed, ekMap, hashT, signing, buyer.signingPrivate.value, r.createdAt, forged, signing, buyerKey);
  }

  /**
   * A transaction protected and signed by the buyer, whose hash_T is then replaced by another
   * digest: `check` reports both the seller's and the buyer's signature as not verifying.
   */
  lemma CheckTamperedSigned(p: Primitives, document: Dict, seller: CompanyKeys, buyer: CompanyKeys, r: ProtectRandomness,
                            buyerKey: bytes, forged: bytes)
    requires Ideal(p) && Protect(p, document, seller, buyer, r).Ok? && buyer.signingPrivate.Some?
    requires p.ed25519PublicPem(buyerKey) != [] && forged != Hash(p, CanonicalBytes(document))
    ensures var sellerPublic := p.ed25519PublicPem(seller.signingPrivate.value);
      var signed := BuyerSign(p, Protect(p, document, seller, buyer, r).value, buyer, sellerPublic);
      signed.Ok? &&
      CheckSpec(p, signed.value["hash_T" := B64Value(forged)], sellerPublic, Some(p.ed25519PublicPem(buyerKey)), [], map[]) ==
        Ok(CheckReport(false, Some(false), []))
  {
    ProtectOk(p, document, seller, buyer, r);
    ProtectedTamperedSignedCheck(p, document, SellerName(seller), seller.encryptionPublic.value, BuyerName(buyer),
                                 buyer.encryptionPublic.value, seller.signingPrivate.value, r, buyer, buyerKey, forged);
  }

  /** On a protected dict the buyer signed, `check` without a buyer key reports the buyer's signature as False. */
  lemma ProtectedSignedNoBuyerKey(p: Primitives, document: Dict, sellerName: string, sellerPublic: bytes, buyerName: string,
                                  buyerPublic: bytes, signing: bytes, r: ProtectRandomness, buyer: CompanyKeys,
                                  buyerPublicSigning: Option<bytes>)
    requires Ideal(p) && buyer.signingPrivate.Some? && (buyerPublicSigning.None? || buyerPublicSigning.value == [])
    ensures var d := Protected(p, document, sellerName, sellerPublic, buyerName, buyerPublic, signing, r);
      var signed := BuyerSign(p, d, buyer, p.ed25519PublicPem(signing));
      signed.Ok? &&
      CheckSpec(p, signed.value, p.ed25519PublicPem(signing), buyerPublicSigning, [], map[]) == Ok(CheckReport(true, Some(false), []))
  {
    var sellerPublicSigning := p.ed25519PublicPem(signing);
    var hashT := Hash(p, CanonicalBytes(document));
    var sig := Sign(p, signing, hashT);
    var ekMap := EkMap(sellerName, WrapKeyWith(p, sellerPublic, r.symKey, r.sellerEphemeral, r.sellerWrapNonce),
                       buyerName, WrapKeyWith(p, buyerPublic, r.symKey, r.buyerEphemeral, r.buyerWrapNonce));
    var sealed := EncryptAesGcmWith(p, r.symKey, CanonicalBytes(document), hashT, r.nonce);
    var txId := PyStr(TxIdSource(document, r.uuidHex));
    var d := ProtectedDoc(txId, sealed, ekMap, hashT, sig, r.createdAt);
    ProtectedDocBytes(txId, sealed, ekMap, hashT, sig, r.createdAt);
    SignVerify(p, signing, signing, hashT, hashT);
    var sigBuyer := Sign(p, buyer.signingPrivate.value, hashT);
    assert BuyerSign(p, d, buyer, sellerPublicSigning) == Ok(d["sig_buyer" := B64Value(sigBuyer)]);
    CheckSignedNoKey(p, d, hashT, sig, sigBuyer, sellerPublicSigning, buyerPublicSigning, [], map[]);
  }

  /**
   * `check` given no buyer key (None or empty) on a transaction the buyer signed: the seller's
   * signature verifies and buyer_sig_ok is False, not None.
   */
  lemma CheckWithoutBuyerKey(p: Primitives, document: Dict, seller: CompanyKeys, buyer: CompanyKeys, r: ProtectRandomness,
                             buyerPublicSigning: Option<bytes>)
    requires Ideal(p) && Protect(p, document, seller, buyer, r).Ok? && buyer.signingPrivate.Some?
    requires buyerPublicSigning.None? || buyerPublicSigning.value == []
    ensures var sellerPublic := p.ed25519PublicPem(seller.signingPrivate.value);
      var signed := BuyerSign(p, Protect(p, document, seller, buyer, r).value, buyer, sellerPublic);
      signed.Ok? && CheckSpec(p, signed.value, sellerPublic, buyerPublicSigning, [], map[]) == Ok(CheckReport(true, Some(false), []))
  {
    ProtectOk(p, document, seller, buyer, r);
    ProtectedSignedNoBuyerKey(p, document, SellerName(seller), seller.encryptionPublic.value, BuyerName(buyer),
                              buyer.encryptionPublic.value, seller.signingPrivate.value, r, buyer, buyerPublicSigning);
  }

  /** `check` reads only hash_T, sig_seller and sig_buyer of the protected dict: it never decrypts. */
  lemma CheckReadsOnlySignatures(p: Primitives, doc: Dict, key: string, v: Value, sellerPublicSigning: bytes,
                                 buyerPublicSigning: Option<bytes>, records: seq<Dict>, keys: map<string, bytes>)
    requires key != "hash_T" && key != "sig_seller" && key != "sig_buyer"
    ensures CheckSpec(p, doc[key := v], sellerPublicSigning, buyerPublicSigning, records, keys) ==
            CheckSpec(p, doc, sellerPublicSigning, buyerPublicSigning, records, keys)
  {
    var changed := doc[key := v];
    assert B64Field(changed, "hash_T") == B64Field(doc, "hash_T");
    assert B64Field(changed, "sig_seller") == B64Field(doc, "sig_seller");
    assert Get(changed, "sig_buyer") == Get(doc, "sig_buyer");
  }

  /** `check` gives one entry per share record, in order, and raises exactly when one of the records does. */
  lemma {:induction false} ShareEntriesPointwise(p: Primitives, records: seq<Dict>, keys: map<string, bytes>)
    ensures ShareEntries(p, records, keys).Ok? <==> forall i | 0 <= i < |records| :: ShareEntry(p, records[i], keys).Ok?
    ensures ShareEntries(p, records, keys).Ok? ==>
              forall i | 0 <= i < |records| :: ShareEntries(p, records, keys).value[i] == ShareEntry(p, records[i], keys).value
    decreases |records|
  {
    if records != [] {
      ShareEntriesPointwise(p, records[1..], keys);
      assert forall i | 1 <= i < |records| :: records[1..][i - 1] == records[i];
      if ShareEntry(p, records[0], keys).Ok? && ShareEntries(p, records[1..], keys).Ok? {
        var rest := ShareEntries(p, records[1..], keys).value;
        assert ShareEntries(p, records, keys).value == [ShareEntry(p, records[0], keys).value] + rest;
      }
    }
  }

  // ---------------------------------------------------------------------------------------------
  // create_share_record

  /** `create_share_record` once the discloser's key is unwrapped. */
  lemma CreateShareSteps(p: Primitives, doc: Dict, fromKeys: CompanyKeys, toName: string, toPublicEnc: bytes,
                         fromName: Option<string>, r: ShareRandomness, wrapped: bytes, symKey: bytes)
    requires fromKeys.encryptionPrivate.Some? && SelectWrappedKey(doc, DisclosingName(fromName, fromKeys), None) == Ok(wrapped)
    requires UnwrapKey(p, fromKeys.encryptionPrivate.value, wrapped) == Ok(symKey)
    requires "tx_id" in doc && fromKeys.signingPrivate.Some?
    ensures CreateShareRecord(p, doc, fromKeys, toName, toPublicEnc, fromName, r) ==
            Ok(SignedRecord(p, ShareBody(r.uuidHex, doc["tx_id"], DisclosingName(fromName, fromKeys), toName,
                                         WrapKeyWith(p, toPublicEnc, symKey, r.ephemeral, r.wrapNonce), r.timestamp),
                            fromKeys.signingPrivate.value))
  {
    ShareUnwrapped(p, doc, fromKeys, toName, toPublicEnc, fromName, r, wrapped, symKey);
    ShareKeyOk(p, doc, fromKeys, DisclosingName(fromName, fromKeys), toName, toPublicEnc, symKey, r);
  }

  /** `create_share_record` goes on with the key it unwrapped from the discloser's entry. */
  lemma ShareUnwrapped(p: Primitives, doc: Dict, fromKeys: CompanyKeys, toName: string, toPublicEnc: bytes,
                       fromName: Option<string>, r: ShareRandomness, wrapped: bytes, symKey: bytes)
    requires fromKeys.encryptionPrivate.Some? && SelectWrappedKey(doc, DisclosingName(fromName, fromKeys), None) == Ok(wrapped)
    requires UnwrapKey(p, fromKeys.encryptionPrivate.value, wrapped) == Ok(symKey)
    ensures CreateShareRecord(p, doc, fromKeys, toName, toPublicEnc, fromName, r) ==
            ShareKey(p, doc, fromKeys, DisclosingName(fromName, fromKeys), toName, toPublicEnc, symKey, r)
  {
  }

  /** With tx_id and a signing key present, the record is the signed body. */
  lemma ShareKeyOk(p: Primitives, doc: Dict, fromKeys: CompanyKeys, from: string, toName: string, toPublicEnc: bytes,
                   symKey: bytes, r: ShareRandomness)
    requires "tx_id" in doc && fromKeys.signingPrivate.Some?
    ensures ShareKey(p, doc, fromKeys, from, toName, toPublicEnc, symKey, r) ==
            Ok(SignedRecord(p, ShareBody(r.uuidHex, doc["tx_id"], from, toName, WrapKeyWith(p, toPublicEnc, symKey, r.ephemeral, r.wrapNonce),
                                         r.timestamp), fromKeys.signingPrivate.value))
  {
  }

  /** What `unprotect` and `check` read from a share record carrying the signature `sig`. */
  lemma ShareRecordFields(id: string, txId: Value, from: string, to: string, ekTo: bytes, timestamp: string, sig: bytes)
    ensures var body := ShareBody(id, txId, from, to, ekTo, timestamp);
      var rec := body["sig_share" := B64Value(sig)];
      ShareGiven(Some(rec)) && Get(rec, "id") == JString(id) && Get(rec, "from_company") == JString(from) &&
      B64Field(rec, "ek_to") == Ok(ekTo) && B64Field(rec, "sig_share") == Ok(sig)
  {
    var rec := ShareBody(id, txId, from, to, ekTo, timestamp)["sig_share" := B64Value(sig)];
    assert rec["ek_to"] == B64Value(ekTo);
    B64ValueRoundTrip(ekTo);
    B64ValueRoundTrip(sig);
  }

  /** Removing sig_share from a share record gives back the body that was signed. */
  lemma ShareRecordUnsigned(id: string, txId: Value, from: string, to: string, ekTo: bytes, timestamp: string, sig: bytes)
    ensures var body := ShareBody(id, txId, from, to, ekTo, timestamp);
      body["sig_share" := B64Value(sig)] - {"sig_share"} == body
  {
    var body := ShareBody(id, txId, from, to, ekTo, timestamp);
    assert "sig_share" !in body;
  }

  /**
   * No escalation: a share can come only from a company that holds an ek_map entry under its
   * name and can unwrap it; a share record in hand is never a source.
   */
  lemma ShareNeedsOwnEntry(p: Primitives, doc: Dict, fromKeys: CompanyKeys, toName: string, toPublicEnc: bytes,
                           fromName: Option<string>, r: ShareRandomness)
    requires CreateShareRecord(p, doc, fromKeys, toName, toPublicEnc, fromName, r).Ok?
    ensures var from := DisclosingName(fromName, fromKeys);
      fromKeys.encryptionPrivate.Some? && fromKeys.signingPrivate.Some? && "tx_id" in doc &&
      EkMapOf(doc).JObject? && from in EkMapOf(doc).fields &&
      B64DecodeValue(EkMapOf(doc).fields[from]).Ok? &&
      UnwrapKey(p, fromKeys.encryptionPrivate.value, B64DecodeValue(EkMapOf(doc).fields[from]).value).Ok?
  {
    var from := DisclosingName(fromName, fromKeys);
    assert fromKeys.encryptionPrivate.Some?;
    var wrapped := SelectWrappedKey(doc, from, None).value;
    var symKey := UnwrapKey(p, fromKeys.encryptionPrivate.value, wrapped).value;
    ShareUnwrapped(p, doc, fromKeys, toName, toPublicEnc, fromName, r, wrapped, symKey);
    ShareKeyNeeds(p, doc, fromKeys, from, toName, toPublicEnc, symKey, r);
  }

  /** The rest of `create_share_record` needs tx_id and the discloser's signing key. */
  lemma ShareKeyNeeds(p: Primitives, doc: Dict, fromKeys: CompanyKeys, from: string, toName: string, toPublicEnc: bytes,
                      symKey: bytes, r: ShareRandomness)
    requires ShareKey(p, doc, fromKeys, from, toName, toPublicEnc, symKey, r).Ok?
    ensures "tx_id" in doc && fromKeys.signingPrivate.Some?
  {
  }

  /** `create_share_record` raises KeyError without the discloser's private key, then without its ek_map entry. */
  lemma ShareErrors(p: Primitives, doc: Dict, fromKeys: CompanyKeys, toName: string, toPublicEnc: bytes,
                    fromName: Option<string>, r: ShareRandomness)
    ensures fromKeys.encryptionPrivate.None? ==>
              CreateShareRecord(p, doc, fromKeys, toName, toPublicEnc, fromName, r) == Err(KeyError("encryption_private"))
    ensures fromKeys.encryptionPrivate.Some? && EkMapOf(doc).JObject? && DisclosingName(fromName, fromKeys) !in EkMapOf(doc).fields ==>
              CreateShareRecord(p, doc, fromKeys, toName, toPublicEnc, fromName, r) == Err(KeyError(NoWrappedKey(DisclosingName(fromName, fromKeys))))
  {
  }

  /**
   * `protect` files an unnamed seller under "seller", while `create_share_record` looks an
   * unnamed discloser up under "unknown": without from_company_name the seller cannot share.
   */
  lemma UnnamedSellerCannotShare(p: Primitives, document: Dict, seller: CompanyKeys, buyer: CompanyKeys, r: ProtectRandomness,
                                 toName: string, toPublicEnc: bytes, rs: ShareRandomness)
    requires Protect(p, document, seller, buyer, r).Ok? && seller.name.None? && seller.encryptionPrivate.Some?
    requires BuyerName(buyer) != "unknown"
    ensures CreateShareRecord(p, Protect(p, document, seller, buyer, r).value, seller, toName, toPublicEnc, None, rs) ==
            Err(KeyError(NoWrappedKey("unknown")))
  {
    ProtectOk(p, document, seller, buyer, r);
    var sellerPublic, buyerPublic := seller.encryptionPublic.value, buyer.encryptionPublic.value;
    var d := Protected(p, document, SellerName(seller), sellerPublic, BuyerName(buyer), buyerPublic, seller.signingPrivate.value, r);
    ProtectedEkMap(p, document, SellerName(seller), sellerPublic, BuyerName(buyer), buyerPublic, seller.signingPrivate.value, r);
    EkMapMissing(SellerName(seller), WrapKeyWith(p, sellerPublic, r.symKey, r.sellerEphemeral, r.sellerWrapNonce),
                 BuyerName(buyer), WrapKeyWith(p, buyerPublic, r.symKey, r.buyerEphemeral, r.buyerWrapNonce), "unknown");
    ShareErrors(p, d, seller, toName, toPublicEnc, None, rs);
  }

  /** `unprotect` depends on the company only through the transaction key it unwraps. */
  lemma UnprotectSameKey(p: Primitives, doc: Dict, keys: CompanyKeys, name: string, share: Option<Dict>, wrapped: bytes,
                         keys': CompanyKeys, name': string, share': Option<Dict>, wrapped': bytes, symKey: bytes)
    requires SelectWrappedKey(doc, name, share) == Ok(wrapped) && SelectWrappedKey(doc, name', share') == Ok(wrapped')
    requires keys.encryptionPrivate.Some? && UnwrapKey(p, keys.encryptionPrivate.value, wrapped) == Ok(symKey)
    requires keys'.encryptionPrivate.Some? && UnwrapKey(p, keys'.encryptionPrivate.value, wrapped') == Ok(symKey)
    ensures Unprotect(p, doc, keys, name, share) == Unprotect(p, doc, keys', name', share')
  {
    assert Need(keys.encryptionPrivate, "encryption_private") == Ok(keys.encryptionPrivate.value);
    assert Need(keys'.encryptionPrivate, "encryption_private") == Ok(keys'.encryptionPrivate.value);
  }

  /** The recipient of a share record reads exactly what the company that created it reads. */
  lemma ShareRelays(p: Primitives, doc: Dict, fromKeys: CompanyKeys, toName: string, toPrivate: bytes, fromName: Option<string>,
                    r: ShareRandomness, toKeys: CompanyKeys, anyName: string)
    requires Ideal(p) && |r.wrapNonce| == NonceLength
    requires CreateShareRecord(p, doc, fromKeys, toName, p.x25519PublicPem(toPrivate), fromName, r).Ok?
    requires toKeys.encryptionPrivate == Some(toPrivate)
    ensures var rec := CreateShareRecord(p, doc, fromKeys, toName, p.x25519PublicPem(toPrivate), fromName, r).value;
      Unprotect(p, doc, toKeys, anyName, Some(rec)) == Unprotect(p, doc, fromKeys, DisclosingName(fromName, fromKeys), None)
  {
    var from := DisclosingName(fromName, fromKeys);
    ShareNeedsOwnEntry(p, doc, fromKeys, toName, p.x25519PublicPem(toPrivate), fromName, r);
    var wrapped := SelectWrappedKey(doc, from, None).value;
    var symKey := UnwrapKey(p, fromKeys.encryptionPrivate.value, wrapped).value;
    CreateShareSteps(p, doc, fromKeys, toName, p.x25519PublicPem(toPrivate), fromName, r, wrapped, symKey);
    var ekTo := WrapKeyWith(p, p.x25519PublicPem(toPrivate), symKey, r.ephemeral, r.wrapNonce);
    var sig := Sign(p, fromKeys.signingPrivate.value, Hash(p, CanonicalBytes(ShareBody(r.uuidHex, doc["tx_id"], from, toName, ekTo, r.timestamp))));
    ShareRecordFields(r.uuidHex, doc["tx_id"], from, toName, ekTo, r.timestamp, sig);
    var rec := SignedRecord(p, ShareBody(r.uuidHex, doc["tx_id"], from, toName, ekTo, r.timestamp), fromKeys.signingPrivate.value);
    UnwrapWrap(p, toPrivate, symKey, r.ephemeral, r.wrapNonce);
    UnprotectSameKey(p, doc, toKeys, anyName, Some(rec), ekTo, fromKeys, from, None, wrapped, symKey);
  }

  /** A share record verifies under its creator's public signing key. */
  lemma ShareRecordValid(p: Primitives, doc: Dict, fromKeys: CompanyKeys, toName: string, toPublicEnc: bytes,
                         fromName: Option<string>, r: ShareRandomness, keys: map<string, bytes>)
    requires Ideal(p) && CreateShareRecord(p, doc, fromKeys, toName, toPublicEnc, fromName, r).Ok?
    requires var from := DisclosingName(fromName, fromKeys);
      from in keys && keys[from] == p.ed25519PublicPem(fromKeys.signingPrivate.value) && keys[from] != []
    ensures ShareEntry(p, CreateShareRecord(p, doc, fromKeys, toName, toPublicEnc, fromName, r).value, keys) ==
            Ok(ShareCheck(JString(r.uuidHex), JString(DisclosingName(fromName, fromKeys)), true))
  {
    var from := DisclosingName(fromName, fromKeys);
    ShareNeedsOwnEntry(p, doc, fromKeys, toName, toPublicEnc, fromName, r);
    var wrapped := SelectWrappedKey(doc, from, None).value;
    var symKey := UnwrapKey(p, fromKeys.encryptionPrivate.value, wrapped).value;
    CreateShareSteps(p, doc, fromKeys, toName, toPublicEnc, fromName, r, wrapped, symKey);
    var ekTo := WrapKeyWith(p, toPublicEnc, symKey, r.ephemeral, r.wrapNonce);
    var body := ShareBody(r.uuidHex, doc["tx_id"], from, toName, ekTo, r.timestamp);
    var sk := fromKeys.signingPrivate.value;
    ShareRecordFields(r.uuidHex, doc["tx_id"], from, toName, ekTo, r.timestamp, Sign(p, sk, Hash(p, CanonicalBytes(body))));
    ShareRecordUnsigned(r.uuidHex, doc["tx_id"], from, toName, ekTo, r.timestamp, Sign(p, sk, Hash(p, CanonicalBytes(body))));
    ShareEntryVerdict(p, SignedRecord(p, body, sk), keys, from, sk, sk, Hash(p, CanonicalBytes(body)));
  }

  /** A share record checked without a non-empty key for its disclosing company is reported invalid, not rejected. */
  lemma ShareRecordWithoutKey(p: Primitives, doc: Dict, fromKeys: CompanyKeys, toName: string, toPublicEnc: bytes,
                              fromName: Option<string>, r: ShareRandomness, keys: map<string, bytes>)
    requires CreateShareRecord(p, doc, fromKeys, toName, toPublicEnc, fromName, r).Ok?
    requires var from := DisclosingName(fromName, fromKeys); from !in keys || keys[from] == []
    ensures var rec := CreateShareRecord(p, doc, fromKeys, toName, toPublicEnc, fromName, r).value;
      ShareEntry(p, rec, keys) == Ok(ShareCheck(Get(rec, "id"), JString(DisclosingName(fromName, fromKeys)), false))
  {
    var rec := CreateShareRecord(p, doc, fromKeys, toName, toPublicEnc, fromName, r).value;
    assert Get(rec, "from_company") == JString(DisclosingName(fromName, fromKeys));
  }

  /**
   * The verdict on a share record signed with `signingKey` over `m`: valid exactly when the record
   * without sig_share hashes to `m` and the key `check` is given belongs to that signer.
   */
  lemma ShareEntryVerdict(p: Primitives, rec: Dict, keys: map<string, bytes>, from: string, signingKey: bytes,
                          checkKey: bytes, m: bytes)
    requires Ideal(p) && B64Field(rec, "sig_share") == Ok(Sign(p, signingKey, m)) && Get(rec, "from_company") == JString(from)
    requires from in keys && keys[from] == p.ed25519PublicPem(checkKey) && keys[from] != []
    ensures ShareEntry(p, rec, keys) ==
            Ok(ShareCheck(Get(rec, "id"), JString(from),
                          Hash(p, CanonicalBytes(rec - {"sig_share"})) == m && p.ed25519PublicPem(checkKey) == p.ed25519PublicPem(signingKey)))
  {
    SignVerify(p, signingKey, checkKey, m, Hash(p, CanonicalBytes(rec - {"sig_share"})));
  }

  /**
   * A share record whose sig_share is not the signature, by the key pair `check` is given for
   * its from_company, of the record without sig_share is reported invalid.
   */
  lemma ForgedShareSigInvalid(p: Primitives, rec: Dict, keys: map<string, bytes>, from: string, checkKey: bytes, forged: bytes)
    requires Ideal(p) && B64Field(rec, "sig_share") == Ok(forged) && Get(rec, "from_company") == JString(from)
    requires from in keys && keys[from] == p.ed25519PublicPem(checkKey) && keys[from] != []
    requires forged != Sign(p, checkKey, Hash(p, CanonicalBytes(rec - {"sig_share"})))
    ensures ShareEntry(p, rec, keys) == Ok(ShareCheck(Get(rec, "id"), JString(from), false))
  {
    ForgedSignatureRejected(p, checkKey, Hash(p, CanonicalBytes(rec - {"sig_share"})), forged);
  }

  /** The seller's own ek_map entry of a protected dict unwraps to the transaction key. */
  lemma ProtectedSellerEntry(p: Primitives, document: Dict, sellerName: string, sellerPrivate: bytes, buyerName: string,
                             buyerPublic: bytes, signing: bytes, r: ProtectRandomness)
    requires Ideal(p) && ProtectDraws(r) && sellerName != buyerName
    ensures var d := Protected(p, document, sellerName, p.x25519PublicPem(sellerPrivate), buyerName, buyerPublic, signing, r);
      var ekSeller := WrapKeyWith(p, p.x25519PublicPem(sellerPrivate), r.symKey, r.sellerEphemeral, r.sellerWrapNonce);
      "tx_id" in d && SelectWrappedKey(d, sellerName, None) == Ok(ekSeller) && UnwrapKey(p, sellerPrivate, ekSeller) == Ok(r.symKey)
  {
    var ekSeller := WrapKeyWith(p, p.x25519PublicPem(sellerPrivate), r.symKey, r.sellerEphemeral, r.sellerWrapNonce);
    var ekBuyer := WrapKeyWith(p, buyerPublic, r.symKey, r.buyerEphemeral, r.buyerWrapNonce);
    var ekMap := EkMap(sellerName, ekSeller, buyerName, ekBuyer);
    var hashT := Hash(p, CanonicalBytes(document));
    var sealed := EncryptAesGcmWith(p, r.symKey, CanonicalBytes(document), hashT, r.nonce);
    var txId := PyStr(TxIdSource(document, r.uuidHex));
    var d := ProtectedDoc(txId, sealed, ekMap, hashT, Sign(p, signing, hashT), r.createdAt);
    ProtectedDocFields(txId, sealed, ekMap, hashT, Sign(p, signing, hashT), r.createdAt);
    EkMapEntries(sellerName, ekSeller, buyerName, ekBuyer);
    SelectEntry(p, d, ekMap, sellerName, sellerPrivate, r.symKey, r.sellerEphemeral, r.sellerWrapNonce);
  }

  /** A seller filed in ek_map under the name it shares by passes on what it reads itself. */
  lemma ProtectedShareReads(p: Primitives, document: Dict, sellerName: string, sellerPrivate: bytes, buyerName: string,
                            buyerPublic: bytes, signing: bytes, r: ProtectRandomness, seller: CompanyKeys,
                            toName: string, toPrivate: bytes, rs: ShareRandomness, toKeys: CompanyKeys, anyName: string)
    requires Ideal(p) && ProtectDraws(r) && |rs.wrapNonce| == NonceLength && sellerName != buyerName
    requires seller.encryptionPrivate == Some(sellerPrivate) && seller.signingPrivate.Some? && DisclosingName(None, seller) == sellerName
    requires toKeys.encryptionPrivate == Some(toPrivate)
    ensures var d := Protected(p, document, sellerName, p.x25519PublicPem(sellerPrivate), buyerName, buyerPublic, signing, r);
      var rec := CreateShareRecord(p, d, seller, toName, p.x25519PublicPem(toPrivate), None, rs);
      rec.Ok? && Unprotect(p, d, toKeys, anyName, Some(rec.value)) == Ok(JObject(document))
  {
    var d := Protected(p, document, sellerName, p.x25519PublicPem(sellerPrivate), buyerName, buyerPublic, signing, r);
    var ekSeller := WrapKeyWith(p, p.x25519PublicPem(sellerPrivate), r.symKey, r.sellerEphemeral, r.sellerWrapNonce);
    ProtectedSellerEntry(p, document, sellerName, sellerPrivate, buyerName, buyerPublic, signing, r);
    ProtectedSellerReads(p, document, sellerName, sellerPrivate, buyerName, buyerPublic, signing, r, seller);
    ShareDelivers(p, d, seller, toName, toPrivate, None, rs, toKeys, anyName, ekSeller, r.symKey, JObject(document));
  }

  /**
   * The disclosure flow: a named seller shares a protected transaction with a third company,
   * which then reads the original document through the share record alone.
   */
  lemma AuditorReadsShare(p: Primitives, document: Dict, seller: CompanyKeys, buyer: CompanyKeys, r: ProtectRandomness,
                          toName: string, toPrivate: bytes, rs: ShareRandomness, toKeys: CompanyKeys, anyName: string)
    requires Ideal(p) && ProtectDraws(r) && |rs.wrapNonce| == NonceLength
    requires Protect(p, document, seller, buyer, r).Ok?
    requires seller.name.Some? && seller.name.value != "" && seller.name.value != BuyerName(buyer)
    requires seller.encryptionPrivate.Some? && seller.encryptionPublic == Some(p.x25519PublicPem(seller.encryptionPrivate.value))
    requires toKeys.encryptionPrivate == Some(toPrivate)
    ensures var d := Protect(p, document, seller, buyer, r).value;
      var rec := CreateShareRecord(p, d, seller, toName, p.x25519PublicPem(toPrivate), None, rs);
      rec.Ok? && Unprotect(p, d, toKeys, anyName, Some(rec.value)) == Ok(JObject(document))
  {
    ProtectOk(p, document, seller, buyer, r);
    ProtectedShareReads(p, document, SellerName(seller), seller.encryptionPrivate.value, BuyerName(buyer), buyer.encryptionPublic.value,
                        seller.signingPrivate.value, r, seller, toName, toPrivate, rs, toKeys, anyName);
  }

  /** Whatever a company entitled by its ek_map entry reads, the recipient of its share record reads too. */
  lemma ShareDelivers(p: Primitives, doc: Dict, fromKeys: CompanyKeys, toName: string, toPrivate: bytes, fromName: Option<string>,
                      r: ShareRandomness, toKeys: CompanyKeys, anyName: string, wrapped: bytes, symKey: bytes, v: Value)
    requires Ideal(p) && |r.wrapNonce| == NonceLength
    requires fromKeys.encryptionPrivate.Some? && fromKeys.signingPrivate.Some? && "tx_id" in doc
    requires SelectWrappedKey(doc, DisclosingName(fromName, fromKeys), None) == Ok(wrapped)
    requires UnwrapKey(p, fromKeys.encryptionPrivate.value, wrapped) == Ok(symKey)
    requires Unprotect(p, doc, fromKeys, DisclosingName(fromName, fromKeys), None) == Ok(v)
    requires toKeys.encryptionPrivate == Some(toPrivate)
    ensures var rec := CreateShareRecord(p, doc, fromKeys, toName, p.x25519PublicPem(toPrivate), fromName, r);
      rec.Ok? && Unprotect(p, doc, toKeys, anyName, Some(rec.value)) == Ok(v)
  {
    CreateShareSteps(p, doc, fromKeys, toName, p.x25519PublicPem(toPrivate), fromName, r, wrapped, symKey);
    ShareRelays(p, doc, fromKeys, toName, toPrivate, fromName, r, toKeys, anyName);
  }
}
