/** Results and error kinds shared by every module. */
module Common {
  datatype Option<+T> = None | Some(value: T)

  /** One value per kind of exception that the modelled code throws. */
  datatype Error =
    | InvalidArgument
    | OutOfRange
    | RuntimeFailure
    | AtomsNotFound
    | SignatureMalformed
    | SignatureMismatch
    | KnishIOFailure
    | DecryptionFailed
    | JsonType

  datatype Result<+T> = Ok(value: T) | Err(error: Error) {
    predicate IsFailure() {
      Err?
    }

    function PropagateFailure<U>(): Result<U>
      requires Err?
    {
      Err(error)
    }

    function Extract(): T
      requires Ok?
    {
      value
    }
  }

  type byte = x: nat | x < 256

  type int8 = x: int | -128 <= x < 128

  const TWO_32: int := 0x1_0000_0000
  type uint32 = x: nat | x < TWO_32

  /** The unsigned 32-bit value that a wider result is stored as. */
  function Wrap32(x: nat): (r: uint32) {
    x % TWO_32
  }

  lemma SmallWrap(v: nat)
    requires v < TWO_32
    ensures Wrap32(v) == v
  {
  }

  /** std::isspace in the C locale. */
  predicate IsSpace(c: char) {
    c == ' ' || '\t' <= c <= '\r'
  }
}
