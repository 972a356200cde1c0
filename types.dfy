/** Shared vocabulary: bytes, optional values and the Python exceptions the core can raise. */
module Types {
  /** One octet of a Python `bytes` object. */
  type byte = x: int | 0 <= x < 256

  /** A Python `bytes` object. */
  type bytes = seq<byte>

  datatype Option<+T> = None | Some(value: T)

  /** The exceptions raised by the core, as far as the model tells them apart. */
  datatype Error =
    | KeyError(key: string)    // the argument of KeyError: the missing key of `d[key]`, or a message
    | TypeError                // a value of the wrong kind (TypeError or AttributeError in Python)
    | Base64Error              // binascii.Error, or a non-ASCII string handed to the decoder
    | UnicodeDecodeError       // bytes that are not well-formed UTF-8
    | JsonDecodeError          // text that json.loads rejects
    | UnmodelledJson           // JSON that json.loads accepts but the model's values cannot hold
    | InvalidKey               // an X25519 public key that is not 32 bytes long
    | InvalidNonce             // the ValueError AES-GCM raises for a nonce not 8 to 128 bytes long
    | InvalidTag               // AES-GCM authentication failure
    | SignatureRefused         // the ValueError buyer_sign raises for a bad seller signature

  /** A Python call that either returns a value or raises. */
  datatype Result<+T> = Ok(value: T) | Err(error: Error) {
    predicate IsFailure() { Err? }
    function PropagateFailure<U>(): Result<U>
      requires Err?
    {
      Err(error)
    }
    function Extract(): T
      requires Ok?
    {
      value
    }
  }
}
