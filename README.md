# chainofproduct transaction protocol in Dafny

This project models the transaction protocol of chainofproduct
(`chainofproduct/library.py`) and the logic of its cryptographic helpers
(`chainofproduct/crypto.py`), and proves properties of the model.

A seller uses `protect` on a JSON document. The canonical bytes are hashed with SHA-256 and
encrypted with AES-GCM, with the hash (`hash_T`) as associated data. The AES key is wrapped
twice, once for the seller and once for the buyer, with X25519 + HKDF + AES-GCM. The seller
signs the hash with Ed25519. The buyer can then do the following:

- counter-sign with `buyer_sign`;
- decrypt with `unprotect`;
- re-wrap the key for a third company with `create_share_record`.

Anyone can audit the signatures with `check`.

## Modules

| file | module | contents |
|---|---|---|
| `types.dfy` | `Types` | bytes, `Option`, `Result`, and the Python exceptions the core raises |
| `base64.dfy` | `Base64` | `b64e`, and `b64d` as CPython's non-strict `binascii.a2b_base64` state machine |
| `utf8.dfy` | `Utf8` | strict UTF-8 encoding and decoding (RFC 3629) |
| `json.dfy` | `Json` | the JSON value type and the canonical `json.dumps(sort_keys=True, separators=(",", ":"))` |
| `json.dfy` | `Json` | the default `json.dumps` of the wrap payload, plus `dict.get`, subscripting, truthiness and `str` |
| `json_parse.dfy` | `JsonParse` | `json.loads` for the non-float JSON subset |
| `json_parse.dfy` | `JsonParse` | proofs that it reads both writers' output back |
| `crypto.dfy` | `Crypto` | the primitives as a datatype of functions and the `Ideal` assumptions about them |
| `crypto.dfy` | `Crypto` | the AES-GCM split and join, the key wrap and its payload, signing, and the `Sha256` digest object |
| `library.dfy` | `Library` | `protect`, `buyer_sign`, `_select_wrapped_key`, `unprotect`, `create_share_record` |
| `library.dfy` | `Library` | `check`, as a method with a loop proved against `CheckSpec` |
| `library_proofs.dfy` | `LibraryProofs` | the protocol's properties |
| `ideal_witness.dfy` | `IdealWitness` | a toy set of primitives that satisfies every `Ideal` assumption, so the assumptions are consistent |

### Primitives and randomness

The cryptographic primitives are fields of `Crypto.Primitives`. They cover SHA-256
(FIPS 180-4), AES-GCM (NIST SP 800-38D), HKDF-SHA256 (RFC 5869), X25519 (RFC 7748) and Ed25519
(RFC 8032).

Every security lemma assumes `Crypto.Ideal(p)`, which is a conjunction of named laws:

- digest length;
- AEAD correctness, integrity and binding;
- key agreement and agreement binding;
- KDF binding;
- signature correctness, non-emptiness, binding and unforgeability.

These laws are idealisations. The real algorithms meet them at best computationally, not as
mathematical statements, and some not even that: `AeadBinding` makes AES-GCM key-committing,
which real AES-GCM is not. `SignatureUnforgeable` excludes every forgery outright. So
`Crypto.AeadWrongContext`, `Crypto.UnwrapWrongKey` and the forged-signature lemmas hold for the
ideal primitives, not as statements about real AES-GCM or Ed25519.

A binding law and a fixed output length cannot hold together for all inputs. So only the
lengths the protocol relies on are fixed: a 32-byte digest, a tag of at least 16 bytes, and a
32-byte raw public key. `IdealWitness.WitnessIdeal` shows the conjunction is satisfiable.

Randomness and the clock are parameters (`ProtectRandomness`, `ShareRandomness`, and the nonce
of `EncryptAesGcmWith`/`WrapKeyWith`). They cover `os.urandom`, key generation, `uuid4` and
`datetime.now`. `Crypto.EncryptAesGcm` and `Crypto.WrapKey` are methods that choose these
values nondeterministically.

Dicts are `map<string, Json.Value>` values, so the dict that `buyer_sign` copies, and the
record that `check` copies, are never changed in place.

### Behaviour of the code worth knowing

The model follows the code:

- `buyer_sign` neither decrypts nor recomputes the hash. It only verifies `sig_seller` over the
  stored `hash_T` (library.py:50-53).
- `unprotect` does not check a share record's signature, `to_company` or `tx_id`. It does not
  recompute the hash after decrypting.
- `_select_wrapped_key` prefers a supplied share record over the caller's own `ek_map` entry
  (library.py:62-63).
- `create_share_record` unwraps only through the discloser's own `ek_map` entry, never through
  a share record (library.py:96).
- `protect` files an unnamed seller under `"seller"`, while `create_share_record` looks an
  unnamed discloser up under `"unknown"` (library.py:36 and 95). Without `from_company_name`,
  an unnamed seller therefore cannot share (`UnnamedSellerCannotShare`).
- The KeyError of `_select_wrapped_key` carries the message `No wrapped key for company <name>`
  (library.py:67, `Library.NoWrappedKey`); a failed `d[key]` carries the key.
- Failures are Python exceptions (`KeyError`, `InvalidTag`, `ValueError`, …), modelled as
  `Types.Error`, not typed outcomes. `verify` turns a failed verification into `False`.
- There is one HKDF label, `cop-key-wrap`. The wrap uses an ephemeral key and no sender key.
- There is no layered disclosure in `library.py`.

## Model

| member | source | states |
|---|---|---|
| Base64.Encode | chainofproduct/crypto.py:12-14 | the output is 4·⌈n/3⌉ characters of the URL-safe alphabet, with '=' only in the last two places |
| Base64.Sextet | chainofproduct/crypto.py:14 | each 6-bit value maps to a URL-safe character that the decoder maps back to that value |
| Base64.A2bLength | chainofproduct/crypto.py:17-19 | the a2b loop writes at most three bytes for every four characters it reads |
| Base64.Decode | chainofproduct/crypto.py:17-19 | `b64d` raises binascii.Error, or UnicodeEncodeError for a non-ASCII str (both `Base64Error`), and its output is at most 3/4 of the input length |
| Base64.DecodeGroup | chainofproduct/crypto.py:17-19 | four characters written for three bytes decode to those three bytes, then the rest |
| Base64.A2bEncode | chainofproduct/crypto.py:17-19 | the non-strict a2b state machine decodes every b64e output to its input |
| Base64.DecodeEncode | chainofproduct/crypto.py:12-19 | `b64d(b64e(x)) == x` for every byte string |
| Base64.EncodeInjective | chainofproduct/crypto.py:12-14 | distinct byte strings have distinct encodings |
| Utf8.EncodeChar | chainofproduct/library.py:12 | a code point takes one to four bytes |
| Utf8.Encode | chainofproduct/library.py:12 | `str.encode("utf-8")` of ASCII text is its sequence of character codes, one byte each |
| Utf8.EncodeDecodeSequence | chainofproduct/library.py:82 | every one- to four-byte sequence that strict decoding accepts is the encoding of the character it decodes to |
| Utf8.EncodeDecode | chainofproduct/library.py:82 | bytes that decode as UTF-8 are exactly the encoding of the decoded string, so decoding is injective |
| Utf8.DecodeEncode | chainofproduct/library.py:82 | strict `decode("utf-8")` undoes `encode("utf-8")` for every string |
| Json.SortedKeys | chainofproduct/library.py:12 | `sort_keys=True` lists every key once, in strictly increasing code-point order |
| Json.SortedKeysUnique | chainofproduct/library.py:12 | any strictly increasing listing of the keys is that order, so the key order depends only on the key set |
| Json.StrLeTotal | chainofproduct/library.py:12 | Python's str order is total, so any two keys can be sorted |
| Json.StrLeTrans | chainofproduct/library.py:12 | Python's str order is transitive |
| Json.Serialize | chainofproduct/library.py:12 | the canonical text is printable ASCII and starts with a character that begins a JSON value |
| Json.Quote | chainofproduct/library.py:12 | a string literal with `ensure_ascii` escaping is printable ASCII and starts with a quote |
| Json.CanonicalBytes | chainofproduct/library.py:10-12 | `_canonical_bytes` is the canonical text byte for byte, all printable ASCII |
| Json.DumpsStrings | chainofproduct/crypto.py:119 | the default `json.dumps` of string fields is printable ASCII text of an object |
| JsonParse.Loads | chainofproduct/library.py:82 | `json.loads` raises JSONDecodeError for a leading byte-order mark and for text that is only whitespace |
| JsonParse.LoadsBytes | chainofproduct/crypto.py:125 | `json.loads(b.decode("utf-8"))` raises UnicodeDecodeError for bytes that are not UTF-8, before any parsing |
| JsonParse.ParseValue | chainofproduct/library.py:82 | every value json.loads reads consumes at least one character |
| JsonParse.ParseSerialized | chainofproduct/library.py:82 | parsing the canonical text of any value, followed by a delimiter, gives that value back and leaves the delimiter |
| JsonParse.ParseEscaped | chainofproduct/library.py:82 | the body of any string literal json.dumps writes, escapes and surrogate pairs included, reads back as the original string, up to the closing quote |
| JsonParse.ParseIntText | chainofproduct/library.py:82 | the decimal text of every int, negative ones included, parses back to it |
| JsonParse.IntTextInjective | chainofproduct/library.py:29 | `str` of an int is injective, so distinct integer ids give distinct tx_id strings |
| JsonParse.LoadsSerialize | chainofproduct/library.py:82 | `json.loads` of the canonical text of any value is that value |
| JsonParse.LoadsCanonicalBytes | chainofproduct/library.py:10-12 | `json.loads(_canonical_bytes(d).decode("utf-8")) == d` |
| JsonParse.CanonicalBytesInjective | chainofproduct/library.py:10-12 | equal canonical bytes mean equal dicts, so `hash_T` binds the whole document |
| JsonParse.LoadsDumpsStrings | chainofproduct/crypto.py:125 | `json.loads` of a default `json.dumps` of string fields is the dict of those fields, with later keys winning |
| JsonParse.LoadsBytesEncode | chainofproduct/crypto.py:125 | decoding then loading UTF-8 text encoded from a string is loading that string |
| Crypto.B64ValueRoundTrip | chainofproduct/crypto.py:12-19 | a value written with `b64e` reads back with `b64d` |
| Crypto.DeriveWrapKey | chainofproduct/crypto.py:86-94 | under `Ideal`, HKDF with info `cop-key-wrap` maps distinct shared secrets to distinct wrap keys |
| Crypto.EncryptAesGcmWith | chainofproduct/crypto.py:74-76 | ciphertext ++ tag is the AEAD output, the tag is its last 16 bytes (clamped), and the nonce is returned |
| Crypto.EncryptAesGcm | chainofproduct/crypto.py:70-76 | a fresh 12-byte nonce is used, and ciphertext ++ tag is the AEAD output under it |
| Crypto.DecryptAesGcm | chainofproduct/crypto.py:79-83 | a successful decrypt opened ciphertext ++ tag under a valid nonce |
| Crypto.AeadRoundTrip | chainofproduct/crypto.py:70-83 | decrypting what `encrypt_aes_gcm` returned, with the same key and aad, gives the plaintext |
| Crypto.AeadWrongContext | chainofproduct/crypto.py:79-83 | with a different aad or key, decryption fails with InvalidTag |
| Crypto.DecryptIntegrity | chainofproduct/crypto.py:79-83 | whatever decrypts was sealed under exactly that key, nonce and aad |
| Crypto.WrapKeyWith | chainofproduct/crypto.py:97-119 | the wrapped blob is at least the two bytes of a JSON object |
| Crypto.WrapKey | chainofproduct/crypto.py:97-119 | the blob is the payload for some ephemeral key and some 12-byte nonce |
| Crypto.WrapPayload | chainofproduct/crypto.py:109-119 | the payload reads back as a JSON object with exactly ephemeral_public, nonce and ciphertext |
| Crypto.UnwrapKey | chainofproduct/crypto.py:122-132 | a successful unwrap parsed the blob as JSON |
| Crypto.UnwrapPayload | chainofproduct/crypto.py:122-132 | on a wrap payload, `unwrap_key` decrypts the sealed key under the wrap key derived with HKDF and info `cop-key-wrap` from the agreed secret |
| Crypto.UnwrapWrap | chainofproduct/crypto.py:97-132 | `unwrap_key(priv, wrap_key(pub_of(priv), k)) == k` |
| Crypto.UnwrapWrongKey | chainofproduct/crypto.py:122-132 | unwrapping with the private key of another key pair fails with InvalidTag |
| Crypto.Sign | chainofproduct/crypto.py:135-138 | under `Ideal`, a signature is non-empty and verifies over its message under the signer's public key |
| Crypto.Verify | chainofproduct/crypto.py:141-148 | a Boolean for every input; under `Ideal`, True under a key pair's public key only for the signature that key pair makes over this very message |
| Crypto.ForgedSignatureRejected | chainofproduct/crypto.py:141-148 | any byte string other than the key pair's signature of the message, a bad signature included, gives False |
| Crypto.SignVerify | chainofproduct/crypto.py:135-148 | a signature of m verifies for m' under a public key exactly when m' == m and it is the signer's key |
| Crypto.Sha256.constructor | chainofproduct/crypto.py:152 | a fresh digest object has been fed nothing and is not finalized |
| Crypto.Sha256.Update | chainofproduct/crypto.py:153 | `update` appends its data to what was fed |
| Crypto.Sha256.Finalize | chainofproduct/crypto.py:154 | `finalize` returns the digest of everything fed, once |
| Crypto.Hash | chainofproduct/crypto.py:151-154 | under `Ideal`, the SHA-256 digest is 32 bytes long |
| Crypto.HashBytes | chainofproduct/crypto.py:151-154 | `hash_bytes` is the SHA-256 of its input, hence deterministic |
| Library.Protect | chainofproduct/library.py:15-45 | succeeds exactly when both encryption_public keys and signing_private are present; the result has the ten fields and an ek_map keyed by the two names |
| Library.Protected | chainofproduct/library.py:20-44 | the built dict has the ten fields, hash_T decodes to the SHA-256 of the canonical document, sig_seller to the seller's signature of it, sig_buyer is None, and ek_map is keyed by the two names |
| Library.BuyerSign | chainofproduct/library.py:48-57 | raises KeyError for a missing hash_T or sig_seller; refuses exactly when sig_seller does not verify over hash_T; once it verifies, succeeds exactly when signing_private is present (else KeyError("signing_private")); on success only sig_buyer changes, to the buyer's signature of hash_T |
| Library.SelectWrappedKey | chainofproduct/library.py:60-67 | a non-empty share record's ek_to first, then the company's ek_map entry, else KeyError; success without a share needs an entry |
| Library.Unprotect | chainofproduct/library.py:70-82 | raises what `_select_wrapped_key` raises, then KeyError("encryption_private"); success needs the private key and a share record or an ek_map entry |
| Library.CreateShareRecord | chainofproduct/library.py:85-110 | success needs both private keys, tx_id and the discloser's ek_map entry; the record has the seven fields with the document's tx_id, from_company and to_company |
| Library.ShareKey | chainofproduct/library.py:97-110 | succeeds exactly when tx_id and signing_private are present, raising KeyError for the first one missing; the record has the seven fields |
| Library.SignedRecord | chainofproduct/library.py:107-109 | the body plus sig_share, which decodes to the signer's signature of the body's canonical hash |
| Library.PublicKeyFor | chainofproduct/library.py:142-143 | `share_public_keys.get(from_company)` raises TypeError for an unhashable list or dict, and otherwise finds a key exactly for a str that is a key |
| Library.ShareEntry | chainofproduct/library.py:137-150 | an entry carries the record's id and from_company; it is invalid without keys or without a non-empty key for from_company; a list or dict from_company raises TypeError; a missing sig_share raises; otherwise it is valid exactly when sig_share verifies over the record without it |
| Library.ShareEntries | chainofproduct/library.py:136-151 | one entry per record |
| Library.AppendStep | chainofproduct/library.py:137-151 | one loop step: the record raises, or its entry is appended and the rest follows |
| Library.CheckShares | chainofproduct/library.py:136-151 | the loop over share records computes exactly the entries of `ShareEntries` |
| Library.BuyerSigCheck | chainofproduct/library.py:129-134 | no verdict when sig_buyer is falsy; False when it is set and no non-empty buyer key is given; True only for a signature that verifies over hash_T |
| Library.CheckSpec | chainofproduct/library.py:113-152 | a missing hash_T raises KeyError; a report holds the seller verdict over the stored hash_T, a buyer verdict exactly when sig_buyer is set, and one entry per record |
| Library.Check | chainofproduct/library.py:113-152 | `check` returns exactly `CheckSpec`: the seller verdict, the buyer verdict and the share entries |
| Library.CheckSpecOk | chainofproduct/library.py:124-152 | once every lookup succeeds, the report holds the seller verdict, the buyer verdict and the entries |
| Library.CheckSpecShareError | chainofproduct/library.py:136-151 | a share record that raises makes `check` raise the same error |
| LibraryProofs.ProtectErrors | chainofproduct/library.py:25-27 | `protect` succeeds exactly when it has both encryption_public keys and signing_private, and otherwise raises KeyError for the first one missing |
| LibraryProofs.ProtectOk | chainofproduct/library.py:15-45 | a successful `protect` builds its dict from the names and keys it looked up |
| LibraryProofs.ProtectedDocKeys | chainofproduct/library.py:30-44 | the protected dict has exactly its ten fields |
| LibraryProofs.ProtectedDocFields | chainofproduct/library.py:30-44 | readers find the ek_map, the tx_id and a null sig_buyer in it |
| LibraryProofs.ProtectedDocBytes | chainofproduct/library.py:32-40 | each base64 field decodes to the bytes `protect` encoded |
| LibraryProofs.EkMapEntries | chainofproduct/library.py:35-38 | ek_map holds the buyer's entry, and the seller's entry when the names differ |
| LibraryProofs.EkMapMissing | chainofproduct/library.py:35-38 | any other name has no ek_map entry |
| LibraryProofs.ProtectedEkMap | chainofproduct/library.py:25-38 | ek_map holds the transaction key wrapped under each party's public key |
| LibraryProofs.ProtectedShape | chainofproduct/library.py:20-44 | ten fields: hash_T is the SHA-256 of the canonical document, ek_map is keyed by the two names, sig_buyer is None, tx_id is `str(document.get("id", uuid))` |
| LibraryProofs.ProtectShape | chainofproduct/library.py:15-45 | the same for `protect`, with the default names "seller" and "buyer" |
| LibraryProofs.UnprotectSteps | chainofproduct/library.py:75-82 | `unprotect`, once the key is unwrapped, decrypts the decoded fields with hash_T as aad and parses the result |
| LibraryProofs.UnprotectUnwrapFails | chainofproduct/library.py:75-76 | `unprotect` raises what `unwrap_key` raises |
| LibraryProofs.UnprotectNoEntry | chainofproduct/library.py:64-67 | without a share record, a name missing from ek_map raises KeyError("No wrapped key for company <name>") |
| LibraryProofs.ReadProtected | chainofproduct/library.py:76-82 | whoever unwraps the transaction key reads the document back |
| LibraryProofs.SelectEntry | chainofproduct/library.py:64-66 | the ek_map entry of a name, opened with the matching private key, gives the transaction key |
| LibraryProofs.ProtectedBuyerReads | chainofproduct/library.py:70-82 | the buyer's entry and private key give the document back |
| LibraryProofs.ProtectedSellerReads | chainofproduct/library.py:70-82 | the seller's entry and private key give the document back when the names differ |
| LibraryProofs.BuyerUnprotects | chainofproduct/library.py:70-82 | `unprotect(protect(d), buyer) == d` |
| LibraryProofs.SellerUnprotects | chainofproduct/library.py:70-82 | `unprotect(protect(d), seller) == d` when the names differ |
| LibraryProofs.OutsiderHasNoEntry | chainofproduct/library.py:64-67 | a third company without a share record gets KeyError("No wrapped key for company <name>") |
| LibraryProofs.ProtectedWrongKey | chainofproduct/library.py:76 | the buyer's entry with another key pair's private key fails with InvalidTag |
| LibraryProofs.WrongKeyRejected | chainofproduct/library.py:76 | the same for the output of `protect` |
| LibraryProofs.TamperedHashRejected | chainofproduct/library.py:80-81 | a hash_T replaced by another digest makes decryption fail with InvalidTag |
| LibraryProofs.ReplaceHash | chainofproduct/library.py:39 | replacing hash_T gives the dict built with the new digest |
| LibraryProofs.ProtectedTampered | chainofproduct/library.py:80-81 | the buyer cannot read a protected dict whose hash_T was replaced |
| LibraryProofs.TamperedProtectRejected | chainofproduct/library.py:80-81 | the same for the output of `protect` |
| LibraryProofs.UnprotectIntegrity | chainofproduct/library.py:77-82 | whatever `unprotect` returns was sealed under the stored nonce, with the stored hash_T as aad |
| LibraryProofs.ProtectedBuyerSign | chainofproduct/library.py:50-57 | on a protected dict, `buyer_sign` signs exactly when it is given the seller's key |
| LibraryProofs.BuyerSignsProtected | chainofproduct/library.py:48-57 | the same for the output of `protect` |
| LibraryProofs.ForgedSellerSigDoc | chainofproduct/library.py:50-53 | a protected dict whose sig_seller was replaced by anything but the seller's signature of hash_T is refused by `buyer_sign` and gets seller_sig_ok False from `check` |
| LibraryProofs.ProtectedForgedSellerSig | chainofproduct/library.py:50-53 | the same for a dict `Protected` built |
| LibraryProofs.ForgedSellerSigRejected | chainofproduct/library.py:48-53 | the same for the output of `protect`, under the seller's public key |
| LibraryProofs.BuyerSignIdempotent | chainofproduct/library.py:54-57 | signing twice gives the same dict |
| LibraryProofs.CheckProtectedDoc | chainofproduct/library.py:124-134 | on a fresh protected dict, `check` gives no buyer verdict |
| LibraryProofs.ProtectedCheck | chainofproduct/library.py:125-127 | seller_sig_ok holds exactly under the seller's key |
| LibraryProofs.CheckProtected | chainofproduct/library.py:113-134 | the same for the output of `protect` |
| LibraryProofs.CheckTamperedHash | chainofproduct/library.py:125-127 | a replaced hash_T fails the seller check |
| LibraryProofs.CheckSignedDoc | chainofproduct/library.py:125-134 | on a dict the buyer signed, both verdicts are given, each under the key supplied |
| LibraryProofs.CheckSignedNoKey | chainofproduct/library.py:129-134 | on a dict with sig_buyer set, no buyer key (None or empty) gives a buyer verdict of False |
| LibraryProofs.ProtectedSignedNoBuyerKey | chainofproduct/library.py:129-134 | after `buyer_sign` on a protected dict, `check` without a buyer key reports (True, False) |
| LibraryProofs.CheckWithoutBuyerKey | chainofproduct/library.py:113-134 | the same for the output of `protect` |
| LibraryProofs.CheckTamperedSignedDoc | chainofproduct/library.py:124-132 | on a dict the buyer signed, a replaced hash_T fails both the seller and the buyer verdict |
| LibraryProofs.ProtectedTamperedSignedCheck | chainofproduct/library.py:124-132 | after `buyer_sign` on a protected dict, a replaced hash_T makes `check` report (False, False) |
| LibraryProofs.CheckTamperedSigned | chainofproduct/library.py:113-132 | the same for the output of `protect` |
| LibraryProofs.CheckForgedBuyerSig | chainofproduct/library.py:129-132 | a sig_buyer that is not the buyer key pair's signature of hash_T gets buyer_sig_ok False |
| LibraryProofs.ProtectedBuyerSignedCheck | chainofproduct/library.py:125-132 | after `buyer_sign`, the seller verdict is true and the buyer verdict holds exactly under the buyer's key |
| LibraryProofs.CheckBuyerSigned | chainofproduct/library.py:125-132 | the same for the output of `protect` |
| LibraryProofs.CheckReadsOnlySignatures | chainofproduct/library.py:125-132 | changing any field other than hash_T, sig_seller and sig_buyer leaves the report unchanged, so `check` never decrypts |
| LibraryProofs.ShareEntriesPointwise | chainofproduct/library.py:136-151 | the entries are computed record by record, in order, and `check` raises exactly when one record does |
| LibraryProofs.CreateShareSteps | chainofproduct/library.py:95-110 | the record is the six-field body signed over its canonical hash, with ek_to the key re-wrapped for the recipient |
| LibraryProofs.ShareUnwrapped | chainofproduct/library.py:96 | the record is built from the key unwrapped from the discloser's own entry |
| LibraryProofs.ShareKeyOk | chainofproduct/library.py:97-110 | with tx_id and a signing key present, the record is the signed body |
| LibraryProofs.ShareRecordFields | chainofproduct/library.py:99-109 | the record is a non-empty share, and its id, from_company, ek_to and sig_share read back |
| LibraryProofs.ShareRecordUnsigned | chainofproduct/library.py:107-109 | removing sig_share gives back the body that was signed |
| LibraryProofs.ShareNeedsOwnEntry | chainofproduct/library.py:95-96 | a record needs the discloser's own ek_map entry, unwrapped with its private key (no escalation) |
| LibraryProofs.ShareKeyNeeds | chainofproduct/library.py:101-108 | building the record needs tx_id and the discloser's signing key |
| LibraryProofs.ShareErrors | chainofproduct/library.py:95-96 | KeyError("encryption_private") without the private key, then KeyError("No wrapped key for company <name>") for a discloser with no ek_map entry |
| LibraryProofs.UnnamedSellerCannotShare | chainofproduct/library.py:95-96 | an unnamed seller of a protected dict gets KeyError("No wrapped key for company unknown") |
| LibraryProofs.UnprotectSameKey | chainofproduct/library.py:75-82 | `unprotect` depends on the company only through the key it unwraps |
| LibraryProofs.ShareRelays | chainofproduct/library.py:85-110 | a share's recipient reads exactly what the discloser reads |
| LibraryProofs.ShareRecordValid | chainofproduct/library.py:147-150 | `check` finds a share record valid under its creator's public signing key |
| LibraryProofs.ShareRecordWithoutKey | chainofproduct/library.py:139-146 | a share record whose from_company has no key, or an empty one, is reported invalid |
| LibraryProofs.ForgedShareSigInvalid | chainofproduct/library.py:147-150 | a share record whose sig_share is not the signer's signature of the record without it is reported invalid |
| LibraryProofs.ShareEntryVerdict | chainofproduct/library.py:147-150 | a signed record is valid exactly when its unsigned part hashes to the signed digest and the key belongs to the signer |
| LibraryProofs.ProtectedSellerEntry | chainofproduct/library.py:64-66 | the seller's own entry unwraps to the transaction key |
| LibraryProofs.ProtectedShareReads | chainofproduct/library.py:85-110 | a seller filed under the name it shares by passes on the document |
| LibraryProofs.AuditorReadsShare | chainofproduct/library.py:85-110 | protect, then share with a third company: that company reads the original document through the share record alone |
| LibraryProofs.ShareDelivers | chainofproduct/library.py:85-110 | whatever an entitled discloser reads, the share's recipient reads too |

## Left out

- `generate_signing_keypair`, `generate_encryption_keypair` and the PEM loaders
  (crypto.py:22-67): key generation and PEM parsing belong to the `cryptography` package. A key
  is represented by its PEM bytes.
- The AES, X25519, HKDF, Ed25519 and SHA-256 algorithms themselves: they are parameters,
  constrained only by `Crypto.Ideal`.
- Crypto.Open: does not model the ValueError `AESGCM(key)` raises for a key that is not 16, 24
  or 32 bytes, because the model's keys are opaque bytes.
- Crypto.UnwrapKey: does not model the error X25519 raises for an all-zero shared secret; that
  depends on the curve arithmetic.
- Crypto.Verify: always returns a Boolean. The source loads the public PEM outside its `try`
  (crypto.py:143), so a malformed public key would raise; PEM loading is not modelled.
- Output lengths of HKDF (32 bytes) and of Ed25519 signatures (64 bytes) are not fixed by
  `Crypto.Ideal`, because a fixed length contradicts the binding laws on unbounded inputs.
- Json.PyStr: `str` of a list or dict is approximated by its canonical text, not Python's repr.
- Floats, NaN and Infinity: json.loads accepts them, and the model reports `UnmodelledJson`.
- Json.IntText: does not model the ValueError CPython raises when converting an int of more than
  4300 digits to text (`sys.set_int_max_str_digits`), in `json.dumps` (library.py:12) and in
  `str` (library.py:29); Json.PyStr inherits this. The model's integers are unbounded.
- JsonParse.ParseNumber: does not model the ValueError CPython's `json.loads` raises for an
  integer literal of more than 4300 digits (library.py:82, crypto.py:125).
- Crypto.WrapKeyWith: never fails. `exchange` raises ValueError when the recipient's public key
  is a low-order point and the shared secret is all zeros (crypto.py:104); that depends on the
  curve arithmetic, which is a parameter here.
- Crypto.EncryptAesGcmWith: does not model the OverflowError `AESGCM.encrypt` raises for data or
  associated data longer than 2**31-1 bytes (crypto.py:74).
- JsonParse.Loads: its own contract names the inputs it rejects; what it reads is stated by
  JsonParse.LoadsSerialize and JsonParse.LoadsDumpsStrings.
- Lone surrogate escapes (`"\ud800"`): json.loads accepts them, but Dafny's `char` cannot hold
  them, so the parser reports `UnmodelledJson`.
- RecursionError on deeply nested JSON is not modelled.
- AttributeError (for example `.get` on a list) is reported as TypeError.
- `binascii` is not part of this model beyond `a2b_base64`'s non-strict loop.
- Non-string company names: `CompanyKeys.name` is a string when present.
- Evaluation order: `protect` and `create_share_record` do their dict lookups before the
  wrapping, hashing and signing that cannot fail. The exceptions raised are the same, in the
  same order.
- LibraryProofs.ShareEntryVerdict: validity is stated over the digest of the unsigned record,
  because SHA-256 collisions are not excluded by `Ideal`.
- LibraryProofs.UnprotectIntegrity: a tampered ciphertext is shown only to come from a genuine
  seal under the stored nonce and aad. An abstract AEAD cannot exclude other genuine seals under
  the same key.
- Layered disclosure (`protect_with_layers` and its relatives): it is not part of
  `chainofproduct/library.py`.
- `chainofproduct/keymanager.py`, `cli.py`, `app/`, `disclosure_service/` and `clients/`: file
  storage, HTTP and argument parsing.
