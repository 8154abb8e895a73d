/** Error codes of the library interface and the result wrappers every
    operation of the model returns. Each operation either succeeds with a
    value or names one of the interface's error codes; none silently
    substitutes a default. */
module Errors {

  /** The error codes the interface header enumerates, one constructor per
      code; `Code` gives the number the C interface uses. */
  datatype ErrorCode =
    | Success        // "no error"
    | General        // catch-all
    | InvPkAlgo      // invalid public key algorithm
    | InvMdAlgo      // invalid message digest algorithm
    | BadPublicKey
    | BadSecretKey
    | BadSignature
    | InvCipherAlgo  // invalid cipher algorithm
    | BadMpi
    | WrongPkAlgo    // wrong public key algorithm
    | WeakKey        // weak encryption key
    | InvKeylen      // invalid length of a key
    | InvArg         // invalid argument
    | Selftest       // selftest failed
    | InvOp          // invalid operation code or ctl command
    | NoMem          // out of core
    | Internal
    | Eof
    | InvObj         // an object is not valid
    | TooShort       // provided buffer too short
    | TooLarge       // object is too large
    | NoObj          // missing item in an object

  /** The numeric value of an error code in the C interface. */
  function Code(e: ErrorCode): nat
  {
    match e
    case Success => 0
    case General => 1
    case InvPkAlgo => 4
    case InvMdAlgo => 5
    case BadPublicKey => 6
    case BadSecretKey => 7
    case BadSignature => 8
    case InvCipherAlgo => 12
    case BadMpi => 30
    case WrongPkAlgo => 41
    case WeakKey => 43
    case InvKeylen => 44
    case InvArg => 45
    case Selftest => 50
    case InvOp => 61
    case NoMem => 62
    case Internal => 63
    case Eof => 64
    case InvObj => 65
    case TooShort => 66
    case TooLarge => 67
    case NoObj => 68
  }

  /** Reads a numeric code back; numbers the header does not assign give None. */
  function FromCode(n: int): Option<ErrorCode>
  {
    if n == 0 then Some(Success)
    else if n == 1 then Some(General)
    else if n == 4 then Some(InvPkAlgo)
    else if n == 5 then Some(InvMdAlgo)
    else if n == 6 then Some(BadPublicKey)
    else if n == 7 then Some(BadSecretKey)
    else if n == 8 then Some(BadSignature)
    else if n == 12 then Some(InvCipherAlgo)
    else if n == 30 then Some(BadMpi)
    else if n == 41 then Some(WrongPkAlgo)
    else if n == 43 then Some(WeakKey)
    else if n == 44 then Some(InvKeylen)
    else if n == 45 then Some(InvArg)
    else if n == 50 then Some(Selftest)
    else if n == 61 then Some(InvOp)
    else if n == 62 then Some(NoMem)
    else if n == 63 then Some(Internal)
    else if n == 64 then Some(Eof)
    else if n == 65 then Some(InvObj)
    else if n == 66 then Some(TooShort)
    else if n == 67 then Some(TooLarge)
    else if n == 68 then Some(NoObj)
    else None
  }

  /** Every error code is read back from its number, so no two codes share
      a number; and every number that reads back names the code it came from. */
  lemma CodeRoundTrip(e: ErrorCode, n: int)
    ensures FromCode(Code(e)) == Some(e)
    ensures FromCode(n) == Some(e) ==> Code(e) == n
  {
  }

  /** Distinct codes have distinct numbers. */
  lemma CodeInjective(e1: ErrorCode, e2: ErrorCode)
    ensures Code(e1) == Code(e2) ==> e1 == e2
  {
    CodeRoundTrip(e1, Code(e1));
    CodeRoundTrip(e2, Code(e2));
  }

  datatype Option<+T> = None | Some(value: T)

  /** Success with a value, or one of the interface's error codes. */
  datatype Result<+T> = Ok(value: T) | Err(error: ErrorCode)
}
