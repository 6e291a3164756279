/** The error channel: `handle_error` and the `exception` class.

    Every native call of the library returns an integer status code. The
    wrapper turns the success code into "carry on" and every other code into
    an exception whose message is the library's own text for that code. The
    module also holds the `Result` and `Outcome` types through which the rest
    of the model reports those exceptions, and the second exception kind the
    request copy constructor throws (`std::logic_error`).
 */
module Errors {

  /** MPI_SUCCESS: the MPI standard fixes the success code at 0. */
  const SUCCESS: int := 0

  /** What `MPI_Error_string` leaves behind: the caller's buffer of
      MPI_MAX_ERROR_STRING characters and the length the library reports. */
  datatype RawErrorText = RawErrorText(buffer: seq<char>, resultlen: int)

  /** The exception constructor writes a terminator at index `resultlen`, so the
      reported length must lie strictly inside the buffer. */
  type ErrorText = t: RawErrorText | 0 <= t.resultlen < |t.buffer|
    witness RawErrorText(['\0'], 0)

  /** `MPI_Error_string`, as a total function of the error code. */
  type ErrorStrings = int -> ErrorText

  /** The two exception kinds the wrapper throws. */
  datatype Failure =
    | MpiException(message: string)   // the library's own exception class
    | LogicError(message: string)     // std::logic_error
  {
    /** `what()`: the stored message. */
    function What(): string { message }
  }

  /** A value, or the exception that took its place. */
  datatype Result<+T> = Ok(value: T) | Err(failure: Failure) {
    predicate IsFailure() { Err? }

    function PropagateFailure<U>(): Result<U>
      requires Err?
    {
      Err(failure)
    }

    function Extract(): T
      requires Ok?
    {
      value
    }
  }

  /** Either nothing happened, or an exception was thrown. */
  datatype Outcome = Pass | Fail(failure: Failure) {
    predicate IsFailure() { Fail? }

    function PropagateFailure<U>(): Result<U>
      requires Fail?
    {
      Err(failure)
    }
  }

  /** The characters a reader of a C string takes from `s`: all of them up to,
      and not including, the first NUL. */
  function CString(s: seq<char>): (r: string)
    ensures r <= s
    ensures '\0' !in r
    ensures |r| < |s| ==> s[|r|] == '\0'
  {
    if s == [] || s[0] == '\0' then [] else [s[0]] + CString(s[1..])
  }

  /** A C string without a NUL inside is read back whole. */
  lemma CStringOfPlainText(s: seq<char>)
    requires '\0' !in s
    ensures CString(s) == s
  {
  }

  /** Reading stops no later than the first NUL. */
  lemma CStringStopsAtNul(s: seq<char>, k: nat)
    requires k < |s| && s[k] == '\0'
    ensures |CString(s)| <= k
  {
  }

  /** The message of `exception(int)`: the buffer is terminated at `resultlen`
      and then read as a C string. */
  function CodeMessage(text: ErrorText): (m: string)
    ensures |m| <= text.resultlen
    ensures m == text.buffer[..|m|]
    ensures '\0' !in m
    ensures |m| < text.resultlen ==> text.buffer[|m|] == '\0'
    ensures '\0' !in text.buffer[..text.resultlen] ==> m == text.buffer[..text.resultlen]
  {
    var terminated := text.buffer[text.resultlen := '\0'];
    var m := CString(terminated);
    CStringStopsAtNul(terminated, text.resultlen);
    assert m == text.buffer[..|m|] by {
      forall k | 0 <= k < |m|
        ensures m[k] == text.buffer[k]
      {
        assert m[k] == terminated[k];
      }
    }
    assert |m| < text.resultlen ==> text.buffer[..text.resultlen][|m|] == '\0';
    m
  }

  /** `exception(int errorcode)`. */
  function FromCode(lib: ErrorStrings, code: int): Failure
  {
    MpiException(CodeMessage(lib(code)))
  }

  /** `exception(const char* msg)`: the argument is read as a C string. */
  function FromMessage(msg: seq<char>): Failure
  {
    MpiException(CString(msg))
  }

  /** A message handed to the exception comes back unchanged from `what()`. */
  lemma MessageRoundTrip(msg: string)
    requires '\0' !in msg
    ensures FromMessage(msg).What() == msg
  {
    CStringOfPlainText(msg);
  }

  /** `handle_error(errorcode)`: success is a no-op; any other code throws an
      exception carrying the library's text for that code. */
  function HandleError(lib: ErrorStrings, code: int): (o: Outcome)
    ensures o.Pass? <==> code == SUCCESS
    ensures o.Fail? ==> o.failure == FromCode(lib, code)
  {
    if code == SUCCESS then Pass else Fail(FromCode(lib, code))
  }

  /** What a caller can read from a failed status code: an exception of the
      library's own kind whose message is the start of the text the library
      wrote, never longer than the length it reported, ending at the first NUL
      of that text, and the whole reported text when it holds no NUL. */
  lemma HandleErrorMessage(lib: ErrorStrings, code: int)
    requires code != SUCCESS
    ensures HandleError(lib, code).Fail?
    ensures HandleError(lib, code).failure.MpiException?
    ensures var m := HandleError(lib, code).failure.What();
      && |m| <= lib(code).resultlen
      && m == lib(code).buffer[..|m|]
      && '\0' !in m
      && (|m| < lib(code).resultlen ==> lib(code).buffer[|m|] == '\0')
      && ('\0' !in lib(code).buffer[..lib(code).resultlen] ==> m == lib(code).buffer[..lib(code).resultlen])
  {
  }
}
