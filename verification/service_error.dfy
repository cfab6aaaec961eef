/**
 * The service's typed failures: the three exception codes, the HTTP status
 * each maps to, the exception record and the `assert` helper that throws it.
 */
module ServiceErrors {
  import opened Wrappers

  datatype ServiceExceptionCode = DocumentNotFound | PreviewNotFound | MimetypeNotSupported {
    /** The enum's string value, which also ends the exception message. */
    function Value(): string {
      match this
      case DocumentNotFound => "document_not_found"
      case PreviewNotFound => "preview_not_found"
      case MimetypeNotSupported => "mimetype_not_supported"
    }
  }

  /** Reads a code back from its string value. */
  function CodeFromValue(s: string): (r: Option<ServiceExceptionCode>)
    ensures r.Some? ==> r.value.Value() == s
  {
    if s == "document_not_found" then Some(DocumentNotFound)
    else if s == "preview_not_found" then Some(PreviewNotFound)
    else if s == "mimetype_not_supported" then Some(MimetypeNotSupported)
    else None
  }

  lemma CodeValueRoundTrip(code: ServiceExceptionCode)
    ensures CodeFromValue(code.Value()) == Some(code)
  {
    match code
    case DocumentNotFound =>
    case PreviewNotFound =>
    case MimetypeNotSupported =>
  }

  /** The two statuses the service uses, as `HttpStatus` numbers them. */
  datatype HttpStatus = NotFound | BadRequest {
    function Code(): nat {
      match this
      case NotFound => 404
      case BadRequest => 400
    }
  }

  /** The context object an exception carries; a key mapped to None holds `undefined`. */
  type ErrorOptions = map<string, Option<string>>

  datatype ServiceException = ServiceException(
    code: ServiceExceptionCode,
    options: ErrorOptions,
    message: string,
    status: HttpStatus)

  /** Both not-found codes map to 404; every other code falls to the default 400. */
  function ToHttpStatus(code: ServiceExceptionCode): (status: HttpStatus)
    ensures status == NotFound <==> (code == DocumentNotFound || code == PreviewNotFound)
    ensures status == BadRequest <==> code == MimetypeNotSupported
  {
    match code
    case DocumentNotFound => NotFound
    case PreviewNotFound => NotFound
    case _ => BadRequest
  }

  /** The prefix of every exception message. */
  const MessagePrefix: string := "ServiceError "

  /** Recovers the code an exception message was built from. */
  function CodeOfMessage(message: string): (r: Option<ServiceExceptionCode>)
    ensures r.Some? ==> message == MessagePrefix + r.value.Value()
  {
    if |message| >= |MessagePrefix| && message[..|MessagePrefix|] == MessagePrefix
    then CodeFromValue(message[|MessagePrefix|..])
    else None
  }

  /**
   * `new ServiceException(code, options)`: options default to `{}`, the
   * message names the code so that it can be read back, and the status is
   * always the code's.
   */
  function NewServiceException(code: ServiceExceptionCode, options: ErrorOptions := map[]): (e: ServiceException)
    ensures e.code == code && e.options == options
    ensures e.status == ToHttpStatus(code)
    ensures e.message == MessagePrefix + code.Value()
    ensures CodeOfMessage(e.message) == Some(code)
  {
    var message := MessagePrefix + code.Value();
    assert message[..|MessagePrefix|] == MessagePrefix;
    assert message[|MessagePrefix|..] == code.Value();
    CodeValueRoundTrip(code);
    ServiceException(code, options, message, ToHttpStatus(code))
  }

  /** `assert(condition, code, options)`: returns normally exactly when the condition holds, and otherwise throws that code with those options. */
  function Assert(condition: bool, code: ServiceExceptionCode, options: ErrorOptions := map[]): (r: Outcome<ServiceException>)
    ensures r.Pass? <==> condition
    ensures r.Fail? ==> r.error == NewServiceException(code, options)
  {
    if !condition then Fail(NewServiceException(code, options)) else Pass
  }
}
