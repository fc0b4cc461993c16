/** Shared vocabulary: bytes, the errors the modelled code throws, and failure-compatible results. */
module Wrappers {

  type byte = b: int | 0 <= b < 256
  type bytes = seq<byte>

  datatype Error =
    | OutOfRange             // a number does not fit its wire type
    | InvalidBufferLength    // the buffer ends inside a varint
    | NoTerminatingBit
    | NotShortest            // a varint that is not in shortest form
    | UnsupportedWireType
    | InvalidFieldNumber
    | InvalidWireType
    | MissingProperty        // the buffer ends before a scalar the schema expects
    | InvalidTerminateIndex
    | InvalidBoolean
    | InvalidText            // not NFC-normalised UTF-8
    | TypeError              // a container is missing from the message, or the weight of a marked key
    | NotCanonical           // raised by the strict decoder only
    | InvalidAddressLength
    | InvalidAddressPrefix
    | InvalidAddressCharacter
    | InvalidAddressChecksum
    | WeightsLeft            // fewer bitmap bits than BFT weights
    | KeysNotSorted
    | DuplicatedKeys
    | InvalidBitmapLength
    | InvalidWeightCount
    | MissingWeight          // an added validator without a weight
    | ZeroWeight             // an added validator with weight zero
    | InvalidValidatorCount
    | TotalWeightTooLarge
    | InvalidArgument

  datatype Option<+T> = None | Some(value: T)

  datatype Result<+T> = Ok(value: T) | Err(error: Error) {
    predicate IsFailure() {
      Err?
    }

    function PropagateFailure<U>(): Result<U>
      requires Err?
    {
      Err(error)
    }

    function Extract(): T
      requires Ok?
    {
      value
    }
  }

  ghost predicate NoDup<T>(xs: seq<T>) {
    forall i, j | 0 <= i < j < |xs| :: xs[i] != xs[j]
  }

  /** The number of bytes that hold `n` bits. */
  function ByteCount(n: nat): nat {
    (n + 7) / 8
  }

  /** Array.prototype.findIndex with Buffer.equals. */
  function FindIndex(keys: seq<bytes>, key: bytes): (r: int)
    ensures -1 <= r < |keys|
    ensures r >= 0 ==> keys[r] == key && forall j | 0 <= j < r :: keys[j] != key
    ensures r == -1 ==> key !in keys
  {
    if keys == [] then -1
    else if keys[0] == key then 0
    else
      var r := FindIndex(keys[1..], key);
      if r == -1 then -1 else r + 1
  }
}
