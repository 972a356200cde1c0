/**
 * The transaction protocol of chainofproduct (chainofproduct/library.py): protect, buyer_sign,
 * the choice of a wrapped key, unprotect, create_share_record and check. Protected documents and
 * share records are Python dicts of JSON values; randomness and the clock are parameters.
 */
module Library {
  import opened Types
  import opened Json
  import JsonParse
  import Base64
  import opened Crypto

  /** The entries of a company's key dict the protocol reads; a missing entry is None. */
  datatype CompanyKeys = CompanyKeys(
    name: Option<string>,
    encryptionPublic: Option<bytes>,
    encryptionPrivate: Option<bytes>,
    signingPrivate: Option<bytes>)

  /** `keys[key]` on a company's key dict. */
  function Need(entry: Option<bytes>, key: string): (r: Result<bytes>)
    ensures r.Ok? <==> entry.Some?
    ensures r.Ok? ==> r.value == entry.value
    ensures r.Err? ==> r.error == KeyError(key)
  {
    if entry.Some? then Ok(entry.value) else Err(KeyError(key))
  }

  /** `b64d(d[key])`. */
  function B64Field(d: Dict, key: string): (r: Result<bytes>)
    ensures key !in d ==> r == Err(KeyError(key))
    ensures key in d ==> r == B64DecodeValue(d[key])
  {
    var v :- Subscript(JObject(d), key);
    B64DecodeValue(v)
  }

  function B64Value(data: bytes): Value {
    JString(Base64.Encode(data))
  }

  // ---------------------------------------------------------------------------------------------
  // protect

  /** The values os.urandom, the key generator, uuid4 and the clock supply to one protect call. */
  datatype ProtectRandomness = ProtectRandomness(
    symKey: bytes,           // os.urandom(32)
    nonce: bytes,            // the nonce encrypt_aes_gcm draws
    sellerEphemeral: bytes,  // the ephemeral key and nonce of the seller's wrap
    sellerWrapNonce: bytes,
    buyerEphemeral: bytes,   // the ephemeral key and nonce of the buyer's wrap
    buyerWrapNonce: bytes,
    uuidHex: string,         // uuid.uuid4().hex
    createdAt: string)       // datetime.now(timezone.utc).isoformat()

  /** The lengths os.urandom guarantees. */
  predicate ProtectDraws(r: ProtectRandomness) {
    |r.symKey| == 32 && |r.nonce| == NonceLength && |r.sellerWrapNonce| == NonceLength && |r.buyerWrapNonce| == NonceLength
  }

  ghost const ProtectedFields: set<string> :=
    {"tx_id", "ciphertext", "tag", "nonce", "ek_map", "hash_T", "sig_seller", "sig_buyer", "created_at", "meta"}

  /** `seller_keys.get("name", "seller")`. */
  function SellerName(keys: CompanyKeys): string {
    if keys.name.Some? then keys.name.value else "seller"
  }

  /** `buyer_keys.get("name", "buyer")`. */
  function BuyerName(keys: CompanyKeys): string {
    if keys.name.Some? then keys.name.value else "buyer"
  }

  /** `document.get("id", uuid.uuid4().hex)`, before `str`. */
  function TxIdSource(document: Dict, uuidHex: string): Value {
    if "id" in document then document["id"] else JString(uuidHex)
  }

  function Meta(): Value {
    JObject(map["hash_alg" := JString("sha256"), "cipher" := JString("AES-256-GCM"), "wrap" := JString("X25519+AESGCM")])
  }

  /** The `ek_map` literal: with one name for both parties, the buyer's entry is the one kept. */
  function EkMap(sellerName: string, ekSeller: bytes, buyerName: string, ekBuyer: bytes): (m: Dict)
    ensures m.Keys == {sellerName, buyerName}
  {
    map[sellerName := B64Value(ekSeller)][buyerName := B64Value(ekBuyer)]
  }

  /** `protect`, given the randomness it draws. */
  function Protect(p: Primitives, document: Dict, seller: CompanyKeys, buyer: CompanyKeys, r: ProtectRandomness): (res: Result<Dict>)
    ensures res.Ok? <==> seller.encryptionPublic.Some? && buyer.encryptionPublic.Some? && seller.signingPrivate.Some?
    ensures res.Ok? ==> res.value.Keys == ProtectedFields && EkMapOf(res.value).JObject? &&
                        EkMapOf(res.value).fields.Keys == {SellerName(seller), BuyerName(buyer)}
  {
    var sellerPublic :- Need(seller.encryptionPublic, "encryption_public");
    var buyerPublic :- Need(buyer.encryptionPublic, "encryption_public");
    var signing :- Need(seller.signingPrivate, "signing_private");
    Ok(Protected(p, document, SellerName(seller), sellerPublic, BuyerName(buyer), buyerPublic, signing, r))
  }

  /**
   * The dict `protect` builds once it has the keys it reads: the canonical document hashed,
   * encrypted with the hash as associated data, its key wrapped for both parties, the hash signed.
   */
  function Protected(p: Primitives, document: Dict, sellerName: string, sellerPublic: bytes, buyerName: string, buyerPublic: bytes,
                     signing: bytes, r: ProtectRandomness): (d: Dict)
    ensures d.Keys == ProtectedFields
    ensures B64Field(d, "hash_T") == Ok(Hash(p, CanonicalBytes(document)))
    ensures B64Field(d, "sig_seller") == Ok(Sign(p, signing, Hash(p, CanonicalBytes(document))))
    ensures Get(d, "sig_buyer") == JNull
    ensures EkMapOf(d).JObject? && EkMapOf(d).fields.Keys == {sellerName, buyerName}
  {
    var ekMap := EkMap(sellerName, WrapKeyWith(p, sellerPublic, r.symKey, r.sellerEphemeral, r.sellerWrapNonce),
                       buyerName, WrapKeyWith(p, buyerPublic, r.symKey, r.buyerEphemeral, r.buyerWrapNonce));
    ProtectedDoc(PyStr(TxIdSource(document, r.uuidHex)),
                 EncryptAesGcmWith(p, r.symKey, CanonicalBytes(document), Hash(p, CanonicalBytes(document)), r.nonce),
                 ekMap,
                 Hash(p, CanonicalBytes(document)), Sign(p, signing, Hash(p, CanonicalBytes(document))), r.createdAt)
  }

  /** The dict `protect` returns, from the ciphertext, tag and nonce `sealed` and the other parts. */
  function ProtectedDoc(txId: string, sealed: (bytes, bytes, bytes), ekMap: Dict, hashT: bytes, sigSeller: bytes, createdAt: string): (d: Dict)
    ensures d.Keys == ProtectedFields
    ensures B64Field(d, "hash_T") == Ok(hashT) && B64Field(d, "sig_seller") == Ok(sigSeller)
    ensures Get(d, "sig_buyer") == JNull && EkMapOf(d) == JObject(ekMap)
  {
    B64ValueRoundTrip(hashT);
    B64ValueRoundTrip(sigSeller);
    map[
      "tx_id" := JString(txId),
      "ciphertext" := B64Value(sealed.0),
      "tag" := B64Value(sealed.1),
      "nonce" := B64Value(sealed.2),
      "created_at" := JString(createdAt),
      "meta" := Meta(),
      "ek_map" := JObject(ekMap),
      "sig_buyer" := JNull,
      "sig_seller" := B64Value(sigSeller),
      "hash_T" := B64Value(hashT)]
  }

  // ---------------------------------------------------------------------------------------------
  // buyer_sign

  /**
   * `buyer_sign`: the seller's signature over hash_T must verify; the result is a copy of the
   * document with sig_buyer set (a Dafny map is a value, so the argument is never changed).
   */
  function BuyerSign(p: Primitives, doc: Dict, buyer: CompanyKeys, sellerPublicSigning: bytes): (r: Result<Dict>)
    ensures r == Err(SignatureRefused) <==>
              B64Field(doc, "hash_T").Ok? && B64Field(doc, "sig_seller").Ok? &&
              !Verify(p, sellerPublicSigning, B64Field(doc, "hash_T").value, B64Field(doc, "sig_seller").value)
    ensures r.Ok? ==> r.value.Keys == doc.Keys + {"sig_buyer"}
    ensures r.Ok? ==> forall k | k in doc && k != "sig_buyer" :: r.value[k] == doc[k]
    ensures r.Ok? ==> B64Field(doc, "hash_T").Ok? && buyer.signingPrivate.Some? &&
                      r.value["sig_buyer"] == B64Value(Sign(p, buyer.signingPrivate.value, B64Field(doc, "hash_T").value))
    ensures B64Field(doc, "hash_T").Err? ==> r == Err(B64Field(doc, "hash_T").error)
    ensures B64Field(doc, "hash_T").Ok? && B64Field(doc, "sig_seller").Err? ==> r == Err(B64Field(doc, "sig_seller").error)
    ensures B64Field(doc, "hash_T").Ok? && B64Field(doc, "sig_seller").Ok? &&
            Verify(p, sellerPublicSigning, B64Field(doc, "hash_T").value, B64Field(doc, "sig_seller").value) ==>
              (r.Ok? <==> buyer.signingPrivate.Some?) && (buyer.signingPrivate.None? ==> r == Err(KeyError("signing_private")))
  {
    var hashT :- B64Field(doc, "hash_T");
    var sellerSig :- B64Field(doc, "sig_seller");
    if !Verify(p, sellerPublicSigning, hashT, sellerSig) then Err(SignatureRefused)
    else
      var signing :- Need(buyer.signingPrivate, "signing_private");
      Ok(doc["sig_buyer" := B64Value(Sign(p, signing, hashT))])
  }

  // ---------------------------------------------------------------------------------------------
  // _select_wrapped_key and unprotect

  /** `if share_record:`: a share record given and not empty. */
  predicate ShareGiven(share: Option<Dict>) {
    share.Some? && share.value != map[]
  }

  /** `protected_doc.get("ek_map", {})`. */
  function EkMapOf(doc: Dict): Value {
    if "ek_map" in doc then doc["ek_map"] else JObject(map[])
  }

  /** Python's `a in s` for two strings. */
  predicate Contains(s: string, a: string)
    decreases |s|
  {
    (|a| <= |s| && s[..|a|] == a) || (|s| > 0 && Contains(s[1..], a))
  }

  /** The message of the KeyError `_select_wrapped_key` raises for a company without a wrapped key. */
  function NoWrappedKey(companyName: string): string {
    "No wrapped key for company " + companyName
  }

  /**
   * `_select_wrapped_key`. `company_name in ek_map` on a list tests membership, on a str
   * substring; indexing either by a str then raises TypeError, as does `in` on other values.
   */
  function SelectWrappedKey(doc: Dict, companyName: string, share: Option<Dict>): (r: Result<bytes>)
    ensures ShareGiven(share) ==> r == B64Field(share.value, "ek_to")
    ensures !ShareGiven(share) && EkMapOf(doc).JObject? && companyName in EkMapOf(doc).fields ==>
              r == B64DecodeValue(EkMapOf(doc).fields[companyName])
    ensures !ShareGiven(share) && EkMapOf(doc).JObject? && companyName !in EkMapOf(doc).fields ==>
              r == Err(KeyError(NoWrappedKey(companyName)))
    ensures !ShareGiven(share) && r.Ok? ==> EkMapOf(doc).JObject? && companyName in EkMapOf(doc).fields
  {
    if ShareGiven(share) then B64Field(share.value, "ek_to")
    else
      match EkMapOf(doc)
      case JObject(m) => if companyName in m then B64DecodeValue(m[companyName]) else Err(KeyError(NoWrappedKey(companyName)))
      case JArray(xs) => if JString(companyName) in xs then Err(TypeError) else Err(KeyError(NoWrappedKey(companyName)))
      case JString(s) => if Contains(s, companyName) then Err(TypeError) else Err(KeyError(NoWrappedKey(companyName)))
      case _ => Err(TypeError)
  }

  /** `unprotect`: unwrap the chosen key, decrypt with hash_T as associated data, parse the plaintext. */
  function Unprotect(p: Primitives, doc: Dict, keys: CompanyKeys, companyName: string, share: Option<Dict>): (r: Result<Value>)
    ensures r.Ok? ==> keys.encryptionPrivate.Some? &&
                      (ShareGiven(share) || (EkMapOf(doc).JObject? && companyName in EkMapOf(doc).fields))
    ensures SelectWrappedKey(doc, companyName, share).Err? ==> r == Err(SelectWrappedKey(doc, companyName, share).error)
    ensures SelectWrappedKey(doc, companyName, share).Ok? && keys.encryptionPrivate.None? ==> r == Err(KeyError("encryption_private"))
  {
    var wrapped :- SelectWrappedKey(doc, companyName, share);
    var privateKey :- Need(keys.encryptionPrivate, "encryption_private");
    var symKey :- UnwrapKey(p, privateKey, wrapped);
    var ciphertext :- B64Field(doc, "ciphertext");
    var tag :- B64Field(doc, "tag");
    var nonce :- B64Field(doc, "nonce");
    var hashT :- B64Field(doc, "hash_T");
    var plaintext :- DecryptAesGcm(p, symKey, ciphertext, tag, nonce, hashT);
    JsonParse.LoadsBytes(plaintext)
  }

  // ---------------------------------------------------------------------------------------------
  // create_share_record

  /** The values the key generator, os.urandom, uuid4 and the clock supply to one share. */
  datatype ShareRandomness = ShareRandomness(ephemeral: bytes, wrapNonce: bytes, uuidHex: string, timestamp: string)

  /** `from_company_name or from_company_keys.get("name") or "unknown"`. */
  function DisclosingName(fromName: Option<string>, keys: CompanyKeys): string {
    if fromName.Some? && fromName.value != "" then fromName.value
    else if keys.name.Some? && keys.name.value != "" then keys.name.value
    else "unknown"
  }

  ghost const ShareBodyFields: set<string> := {"id", "tx_id", "from_company", "to_company", "ek_to", "timestamp"}

  ghost const ShareRecordFields: set<string> := ShareBodyFields + {"sig_share"}

  /** The record literal, before sig_share is added. */
  function ShareBody(id: string, txId: Value, from: string, to: string, ekTo: bytes, timestamp: string): (body: Dict)
    ensures body.Keys == ShareBodyFields
    ensures body["tx_id"] == txId && body["from_company"] == JString(from) && body["to_company"] == JString(to)
  {
    map["id" := JString(id), "tx_id" := txId, "from_company" := JString(from), "to_company" := JString(to),
        "ek_to" := B64Value(ekTo), "timestamp" := JString(timestamp)]
  }

  /**
   * `create_share_record`. Arguments are evaluated left to right, so a missing encryption_private
   * is reported before the wrapped key is looked up; the discloser's own ek_map entry is the only
   * source of the key. Wrapping, the record literal and hashing cannot fail, so the lookups that
   * can are done first, in the order the source does them.
   */
  function CreateShareRecord(p: Primitives, doc: Dict, fromKeys: CompanyKeys, toName: string, toPublicEnc: bytes,
                             fromName: Option<string>, r: ShareRandomness): (res: Result<Dict>)
    ensures res.Ok? ==> fromKeys.encryptionPrivate.Some? && fromKeys.signingPrivate.Some? && "tx_id" in doc &&
                        EkMapOf(doc).JObject? && DisclosingName(fromName, fromKeys) in EkMapOf(doc).fields
    ensures res.Ok? ==> res.value.Keys == ShareRecordFields && res.value["tx_id"] == doc["tx_id"] &&
                        res.value["from_company"] == JString(DisclosingName(fromName, fromKeys)) &&
                        res.value["to_company"] == JString(toName)
  {
    var from := DisclosingName(fromName, fromKeys);
    var privateKey :- Need(fromKeys.encryptionPrivate, "encryption_private");
    var wrapped :- SelectWrappedKey(doc, from, None);
    var symKey :- UnwrapKey(p, privateKey, wrapped);
    ShareKey(p, doc, fromKeys, from, toName, toPublicEnc, symKey, r)
  }

  /** The rest of `create_share_record` once the discloser holds the transaction key `symKey`. */
  function ShareKey(p: Primitives, doc: Dict, fromKeys: CompanyKeys, from: string, toName: string, toPublicEnc: bytes,
                    symKey: bytes, r: ShareRandomness): (res: Result<Dict>)
    ensures res.Ok? <==> "tx_id" in doc && fromKeys.signingPrivate.Some?
    ensures "tx_id" !in doc ==> res == Err(KeyError("tx_id"))
    ensures "tx_id" in doc && fromKeys.signingPrivate.None? ==> res == Err(KeyError("signing_private"))
    ensures res.Ok? ==> res.value.Keys == ShareRecordFields && res.value["tx_id"] == doc["tx_id"] &&
                        res.value["from_company"] == JString(from) && res.value["to_company"] == JString(toName)
  {
    var txId :- Subscript(JObject(doc), "tx_id");
    var signing :- Need(fromKeys.signingPrivate, "signing_private");
    var body := ShareBody(r.uuidHex, txId, from, toName, WrapKeyWith(p, toPublicEnc, symKey, r.ephemeral, r.wrapNonce), r.timestamp);
    var rec := SignedRecord(p, body, signing);
    assert rec["tx_id"] == body["tx_id"] && rec["from_company"] == body["from_company"] && rec["to_company"] == body["to_company"];
    Ok(rec)
  }

  /** The record `create_share_record` returns: the body with sig_share, a signature over the body's SHA-256. */
  function SignedRecord(p: Primitives, body: Dict, signing: bytes): (rec: Dict)
    ensures rec.Keys == body.Keys + {"sig_share"}
    ensures forall k | k in body && k != "sig_share" :: rec[k] == body[k]
    ensures B64Field(rec, "sig_share") == Ok(Sign(p, signing, Hash(p, CanonicalBytes(body))))
  {
    B64ValueRoundTrip(Sign(p, signing, Hash(p, CanonicalBytes(body))));
    body["sig_share" := B64Value(Sign(p, signing, Hash(p, CanonicalBytes(body))))]
  }

  // ---------------------------------------------------------------------------------------------
  // check

  datatype ShareCheck = ShareCheck(id: Value, fromCompany: Value, valid: bool)

  datatype CheckReport = CheckReport(sellerSigOk: bool, buyerSigOk: Option<bool>, shares: seq<ShareCheck>)

  /** `share_public_keys.get(from_company)`: keys are str, and a list or dict is unhashable. */
  function PublicKeyFor(keys: map<string, bytes>, from: Value): (r: Result<Option<bytes>>)
    ensures r.Err? <==> from.JArray? || from.JObject?
    ensures r.Err? ==> r.error == TypeError
    ensures r.Ok? ==> (r.value.Some? <==> from.JString? && from.s in keys)
    ensures r.Ok? && r.value.Some? ==> r.value.value == keys[from.s]
  {
    match from
    case JString(s) => Ok(if s in keys then Some(keys[s]) else None)
    case JArray(_) => Err(TypeError)
    case JObject(_) => Err(TypeError)
    case _ => Ok(None)
  }

  /** `share_public_keys.get(from_company)` is a non-empty key. */
  predicate HasKeyFor(rec: Dict, keys: map<string, bytes>) {
    Get(rec, "from_company").JString? && Get(rec, "from_company").s in keys && keys[Get(rec, "from_company").s] != []
  }

  /**
   * One share entry of `check`. An empty key dict stands for None or {}; a key that is absent
   * or empty leaves the entry invalid. The signature is checked over the record without sig_share.
   */
  function ShareEntry(p: Primitives, rec: Dict, keys: map<string, bytes>): (r: Result<ShareCheck>)
    ensures r.Ok? ==> r.value.id == Get(rec, "id") && r.value.fromCompany == Get(rec, "from_company")
    ensures keys == map[] ==> r == Ok(ShareCheck(Get(rec, "id"), Get(rec, "from_company"), false))
    ensures keys != map[] && (Get(rec, "from_company").JArray? || Get(rec, "from_company").JObject?) ==> r == Err(TypeError)
    ensures !(Get(rec, "from_company").JArray? || Get(rec, "from_company").JObject?) && !HasKeyFor(rec, keys) ==>
              r == Ok(ShareCheck(Get(rec, "id"), Get(rec, "from_company"), false))
    ensures HasKeyFor(rec, keys) && B64Field(rec, "sig_share").Err? ==> r == Err(B64Field(rec, "sig_share").error)
    ensures r.Ok? ==> (r.value.valid <==>
              HasKeyFor(rec, keys) && B64Field(rec, "sig_share").Ok? &&
              Verify(p, keys[Get(rec, "from_company").s], Hash(p, CanonicalBytes(rec - {"sig_share"})), B64Field(rec, "sig_share").value))
  {
    var id, from := Get(rec, "id"), Get(rec, "from_company");
    if keys == map[] then Ok(ShareCheck(id, from, false))
    else
      var pub :- PublicKeyFor(keys, from);
      if pub.None? || pub.value == [] then Ok(ShareCheck(id, from, false))
      else
        var sigShare :- B64Field(rec, "sig_share");
        var unsigned := rec - {"sig_share"};
        Ok(ShareCheck(id, from, Verify(p, pub.value, Hash(p, CanonicalBytes(unsigned)), sigShare)))
  }

  /** The share entries of `check`, in the order of the records; the first failing record raises. */
  function ShareEntries(p: Primitives, records: seq<Dict>, keys: map<string, bytes>): (r: Result<seq<ShareCheck>>)
    ensures r.Ok? ==> |r.value| == |records|
    decreases |records|
  {
    if records == [] then Ok([])
    else
      var first :- ShareEntry(p, records[0], keys);
      var rest :- ShareEntries(p, records[1..], keys);
      Ok([first] + rest)
  }

  /** `buyer_sig_ok`: None without sig_buyer, False without a buyer key, else the verification. */
  function BuyerSigCheck(p: Primitives, doc: Dict, hashT: bytes, buyerPublicSigning: Option<bytes>): (r: Result<Option<bool>>)
    ensures !Truthy(Get(doc, "sig_buyer")) ==> r == Ok(None)
    ensures Truthy(Get(doc, "sig_buyer")) && (buyerPublicSigning.None? || buyerPublicSigning.value == []) ==> r == Ok(Some(false))
    ensures r == Ok(Some(true)) ==> buyerPublicSigning.Some? && B64DecodeValue(Get(doc, "sig_buyer")).Ok? &&
                                    Verify(p, buyerPublicSigning.value, hashT, B64DecodeValue(Get(doc, "sig_buyer")).value)
  {
    var sigBuyer := Get(doc, "sig_buyer");
    if Truthy(sigBuyer) && buyerPublicSigning.Some? && buyerPublicSigning.value != [] then
      var sig :- B64DecodeValue(sigBuyer);
      Ok(Some(Verify(p, buyerPublicSigning.value, hashT, sig)))
    else if Truthy(sigBuyer) then Ok(Some(false))
    else Ok(None)
  }

  /** What `check` returns; an empty list of records stands for None or []. */
  function CheckSpec(p: Primitives, doc: Dict, sellerPublicSigning: bytes, buyerPublicSigning: Option<bytes>,
                     records: seq<Dict>, keys: map<string, bytes>): (r: Result<CheckReport>)
    ensures "hash_T" !in doc ==> r == Err(KeyError("hash_T"))
    ensures r.Ok? ==> B64Field(doc, "hash_T").Ok? && B64Field(doc, "sig_seller").Ok? &&
                      r.value.sellerSigOk == Verify(p, sellerPublicSigning, B64Field(doc, "hash_T").value, B64Field(doc, "sig_seller").value)
    ensures r.Ok? ==> (r.value.buyerSigOk.None? <==> !Truthy(Get(doc, "sig_buyer")))
    ensures r.Ok? ==> |r.value.shares| == |records|
  {
    var hashT :- B64Field(doc, "hash_T");
    var sellerSig :- B64Field(doc, "sig_seller");
    var sellerOk := Verify(p, sellerPublicSigning, hashT, sellerSig);
    var buyerOk :- BuyerSigCheck(p, doc, hashT, buyerPublicSigning);
    var shares :- ShareEntries(p, records, keys);
    Ok(CheckReport(sellerOk, buyerOk, shares))
  }

  /** `results["shares"]` after the entries `done`, with what the remaining records give. */
  function Append(done: seq<ShareCheck>, rest: Result<seq<ShareCheck>>): Result<seq<ShareCheck>> {
    if rest.Ok? then Ok(done + rest.value) else Err(rest.error)
  }

  lemma AppendNothing(rest: Result<seq<ShareCheck>>)
    ensures Append([], rest) == rest
  {
    if rest.Ok? {
      assert [] + rest.value == rest.value;
    }
  }

  /** One record of the loop in `check`: it raises, or its entry is appended. */
  lemma AppendStep(p: Primitives, records: seq<Dict>, keys: map<string, bytes>, i: nat, shares: seq<ShareCheck>)
    requires i < |records|
    ensures ShareEntry(p, records[i], keys).Err? ==>
              Append(shares, ShareEntries(p, records[i..], keys)) == Err(ShareEntry(p, records[i], keys).error)
    ensures ShareEntry(p, records[i], keys).Ok? ==>
              Append(shares, ShareEntries(p, records[i..], keys)) ==
              Append(shares + [ShareEntry(p, records[i], keys).value], ShareEntries(p, records[i + 1..], keys))
  {
    assert records[i..][0] == records[i] && records[i..][1..] == records[i + 1..];
    var rest := ShareEntries(p, records[i + 1..], keys);
    if ShareEntry(p, records[i], keys).Ok? && rest.Ok? {
      assert shares + ([ShareEntry(p, records[i], keys).value] + rest.value) ==
             (shares + [ShareEntry(p, records[i], keys).value]) + rest.value;
    }
  }

  /** `check` once the loop has produced `shares`. */
  lemma CheckSpecOk(p: Primitives, doc: Dict, sellerPublicSigning: bytes, buyerPublicSigning: Option<bytes>,
                    records: seq<Dict>, keys: map<string, bytes>, hashT: bytes, sellerSig: bytes, buyerOk: Option<bool>,
                    shares: seq<ShareCheck>)
    requires B64Field(doc, "hash_T") == Ok(hashT) && B64Field(doc, "sig_seller") == Ok(sellerSig)
    requires BuyerSigCheck(p, doc, hashT, buyerPublicSigning) == Ok(buyerOk)
    requires ShareEntries(p, records, keys) == Ok(shares)
    ensures CheckSpec(p, doc, sellerPublicSigning, buyerPublicSigning, records, keys) ==
            Ok(CheckReport(Verify(p, sellerPublicSigning, hashT, sellerSig), buyerOk, shares))
  {
  }

  /** `check` when one of the share records raises. */
  lemma CheckSpecShareError(p: Primitives, doc: Dict, sellerPublicSigning: bytes, buyerPublicSigning: Option<bytes>,
                            records: seq<Dict>, keys: map<string, bytes>, hashT: bytes, sellerSig: bytes, buyerOk: Option<bool>)
    requires B64Field(doc, "hash_T") == Ok(hashT) && B64Field(doc, "sig_seller") == Ok(sellerSig)
    requires BuyerSigCheck(p, doc, hashT, buyerPublicSigning) == Ok(buyerOk)
    requires ShareEntries(p, records, keys).Err?
    ensures CheckSpec(p, doc, sellerPublicSigning, buyerPublicSigning, records, keys) == Err(ShareEntries(p, records, keys).error)
  {
  }

  /** `check`: signature checks only, then one share entry per record. */
  method Check(p: Primitives, doc: Dict, sellerPublicSigning: bytes, buyerPublicSigning: Option<bytes>,
               records: seq<Dict>, keys: map<string, bytes>) returns (report: Result<CheckReport>)
    ensures report == CheckSpec(p, doc, sellerPublicSigning, buyerPublicSigning, records, keys)
  {
    var hashT := B64Field(doc, "hash_T");
    if hashT.Err? {
      return Err(hashT.error);
    }
    var sellerSig := B64Field(doc, "sig_seller");
    if sellerSig.Err? {
      return Err(sellerSig.error);
    }
    var sellerOk := Verify(p, sellerPublicSigning, hashT.value, sellerSig.value);
    var buyerOk := BuyerSigCheck(p, doc, hashT.value, buyerPublicSigning);
    if buyerOk.Err? {
      return Err(buyerOk.error);
    }
    var shares := CheckShares(p, records, keys);
    if shares.Err? {
      CheckSpecShareError(p, doc, sellerPublicSigning, buyerPublicSigning, records, keys, hashT.value, sellerSig.value, buyerOk.value);
      return Err(shares.error);
    }
    CheckSpecOk(p, doc, sellerPublicSigning, buyerPublicSigning, records, keys, hashT.value, sellerSig.value, buyerOk.value,
                shares.value);
    report := Ok(CheckReport(sellerOk, buyerOk.value, shares.value));
  }

  /** The loop of `check` over the share records: one entry appended per record, the first failing record raises. */
  method CheckShares(p: Primitives, records: seq<Dict>, keys: map<string, bytes>) returns (result: Result<seq<ShareCheck>>)
    ensures result == ShareEntries(p, records, keys)
  {
    var shares: seq<ShareCheck> := [];
    var i := 0;
    assert records[i..] == records;
    AppendNothing(ShareEntries(p, records, keys));
    while i < |records|
      invariant 0 <= i <= |records|
      invariant ShareEntries(p, records, keys) == Append(shares, ShareEntries(p, records[i..], keys))
    {
      var entry := ShareEntry(p, records[i], keys);
      AppendStep(p, records, keys, i, shares);
      if entry.Err? {
        return Err(entry.error);
      }
      shares := shares + [entry.value];
      i := i + 1;
    }
    assert records[i..] == [];
    assert shares + [] == shares;
    result := Ok(shares);
  }
}
