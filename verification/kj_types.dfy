/** The KJ vocabulary the two stream adapters share: exceptions and bytes. */
module KjTypes {

  /** `kj::Exception::Type`. */
  datatype ExceptionType = Failed | Overloaded | Disconnected | Unimplemented

  /** A `kj::Exception`, reduced to its type and description. */
  datatype Exception = Exception(kind: ExceptionType, description: string)

  type Byte = b: int | 0 <= b < 256

  /** `kj::min` and `kj::max` on sizes. */
  function Min(a: nat, b: nat): nat { if a <= b then a else b }

  function Max(a: nat, b: nat): nat { if a >= b then a else b }
}
