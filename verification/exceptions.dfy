/**
 * The error channel across module boundaries: 32-bit result codes, the closed set of error kinds,
 * check_abi_result (code to raised error), translate_current_exception (raised error to code) and
 * abi_safe_call. Raising is modelled as returning the raised error.
 */
module Exceptions {
  import opened Wrappers

  type int32 = x: int | -0x8000_0000 <= x < 0x8000_0000

  const Success: int32 := 0
  const SuccessFalse: int32 := 1

  /** The failure kinds, each with its own abi_error_impl type (abi_failure, abi_not_implemented, ...). */
  datatype ErrorKind =
    | Failure | NotImplemented | NullPointer | InvalidArgument | OutOfBounds
    | NoInterface | InvalidOperation | KeyNotFound | BadAlloc | NotInitialized

  /** The failure codes -1 through -10, in the order of the list above. */
  function Code(k: ErrorKind): (r: int32)
    ensures -10 <= r <= -1
  {
    match k
    case Failure => -1
    case NotImplemented => -2
    case NullPointer => -3
    case InvalidArgument => -4
    case OutOfBounds => -5
    case NoInterface => -6
    case InvalidOperation => -7
    case KeyNotFound => -8
    case BadAlloc => -9
    case NotInitialized => -10
  }

  /** Distinct kinds have distinct codes. */
  lemma CodeInjective(k: ErrorKind, l: ErrorKind)
    ensures Code(k) == Code(l) <==> k == l
  {
  }

  /** abi_result::no_error: the code is not negative. */
  predicate NoError(code: int32)
  {
    code >= 0
  }

  /** to_abi_result: success for true, success_false for false; both are no-error codes. */
  function ToAbiResult(value: bool): (r: int32)
    ensures NoError(r)
    ensures r == 0 <==> value
  {
    if value then Success else SuccessFalse
  }

  /** The outcome of an operation that may raise: its value, or the kind of abi_error raised. */
  datatype Raising<T> = Returned(value: T) | Raised(error: ErrorKind)

  /** An abi_error: the result code it carries (abi_error_impl<c> carries c). */
  datatype AbiError = AbiError(result: int32)

  /** The error object abi_error_impl<code of k> that check_abi_result raises for kind k. */
  function ErrorOf(k: ErrorKind): (r: AbiError)
    ensures r.result == Code(k)
  {
    AbiError(Code(k))
  }

  /**
   * check_abi_result: nothing for a no-error code; for -1 through -10 the error type of that code;
   * abi_failure for any other negative code.
   */
  function CheckAbiResult(code: int32): (r: Option<AbiError>)
    ensures r.None? <==> NoError(code)
    ensures r.Some? ==> -10 <= r.value.result <= -1
    ensures r.Some? && code >= -10 ==> r.value.result == code
    ensures code < -10 ==> r == Some(ErrorOf(Failure))
  {
    if code >= 0 then None
    else if code == -1 then Some(ErrorOf(Failure))
    else if code == -2 then Some(ErrorOf(NotImplemented))
    else if code == -3 then Some(ErrorOf(NullPointer))
    else if code == -4 then Some(ErrorOf(InvalidArgument))
    else if code == -5 then Some(ErrorOf(OutOfBounds))
    else if code == -6 then Some(ErrorOf(NoInterface))
    else if code == -7 then Some(ErrorOf(InvalidOperation))
    else if code == -8 then Some(ErrorOf(KeyNotFound))
    else if code == -9 then Some(ErrorOf(BadAlloc))
    else if code == -10 then Some(ErrorOf(NotInitialized))
    else Some(ErrorOf(Failure))
  }

  /**
   * What a callee can throw: the standard exceptions translate_current_exception tells apart, any
   * other std::exception, an abi_error, or something that derives from neither.
   */
  datatype Thrown =
    | StdBadAlloc
    | StdOutOfRange
    | StdInvalidArgument
    | FormatError
    | OtherStdException
    | Abi(error: AbiError)
    | Foreign

  /**
   * translate_current_exception: bad_alloc to -9, out_of_range to -5, invalid_argument and
   * format_error to -4, any other std::exception to -1, and an abi_error to its own code.
   * Anything else escapes the noexcept function and terminates the program.
   */
  function TranslateCurrentException(e: Thrown): (r: int32)
    requires !e.Foreign?
    ensures e.Abi? ==> r == e.error.result
    ensures !e.Abi? ==> r < 0
  {
    match e
    case StdBadAlloc => Code(BadAlloc)
    case StdOutOfRange => Code(OutOfBounds)
    case StdInvalidArgument => Code(InvalidArgument)
    case FormatError => Code(InvalidArgument)
    case OtherStdException => Code(Failure)
    case Abi(error) => error.result
  }

  /** Translating the error check_abi_result raises for a failure code gives that code back. */
  lemma CheckThenTranslate(code: int32)
    requires -10 <= code <= -1
    ensures CheckAbiResult(code).Some?
    ensures TranslateCurrentException(Abi(CheckAbiResult(code).value)) == code
  {
  }

  /** Raising the error of a kind and checking its translated code raises the same kind again. */
  lemma TranslateThenCheck(k: ErrorKind)
    ensures CheckAbiResult(TranslateCurrentException(Abi(ErrorOf(k)))) == Some(ErrorOf(k))
  {
  }

  /** How the body of abi_safe_call ends: returning nothing, returning its own code, or throwing. */
  datatype BodyOutcome = ReturnedVoid | ReturnedCode(code: int32) | Threw(thrown: Thrown)

  /** abi_safe_call: success or the body's own code when it returns, the translated code when it throws. */
  function AbiSafeCall(body: BodyOutcome): (r: int32)
    requires body.Threw? ==> !body.thrown.Foreign?
    ensures body.ReturnedVoid? ==> r == Success
    ensures body.ReturnedCode? ==> r == body.code
    ensures body.Threw? ==> r == TranslateCurrentException(body.thrown)
  {
    match body
    case ReturnedVoid => Success
    case ReturnedCode(code) => code
    case Threw(thrown) => TranslateCurrentException(thrown)
  }

  /** A call wrapped in abi_safe_call and checked on the other side re-raises an abi_error with its code. */
  lemma SafeCallThenCheck(k: ErrorKind)
    ensures CheckAbiResult(AbiSafeCall(Threw(Abi(ErrorOf(k))))) == Some(ErrorOf(k))
    ensures CheckAbiResult(AbiSafeCall(ReturnedVoid)).None?
  {
    TranslateThenCheck(k);
  }
}
