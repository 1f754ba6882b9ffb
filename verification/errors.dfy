/** The application's error values (errors.py) and the Python exceptions the modelled code
    raises, as one datatype that the `Failure` side of a `Result` carries. */
module Errors {

  /** The sentinel code of a content-policy violation (errors.py, POLICY_VIOLATION_ERROR_CODE). */
  const PolicyViolationErrorCode: int := 10001

  /** errors.BaseError: an exception that carries a numeric code and a message. */
  datatype BaseError = BaseError(message: string, code: int)

  /** BaseError(message, code): both fields are stored exactly as given. */
  function NewBaseError(message: string, code: int): (e: BaseError)
    ensures e.message == message && e.code == code
  {
    BaseError(message, code)
  }

  /** PolicyViolationError(message): a BaseError whose code is always the sentinel code. */
  function NewPolicyViolationError(message: string): (e: BaseError)
    ensures e.code == PolicyViolationErrorCode
    ensures e.message == message
    ensures IsPolicyViolation(e)
  {
    NewBaseError(message, PolicyViolationErrorCode)
  }

  predicate IsPolicyViolation(e: BaseError) {
    e.code == PolicyViolationErrorCode
  }

  /** Two policy violations differ exactly when their messages differ: the message is the only
      thing a caller can vary. */
  lemma PolicyViolationErrorInjective(m1: string, m2: string)
    ensures NewPolicyViolationError(m1) == NewPolicyViolationError(m2) <==> m1 == m2
  {
  }

  /** The exceptions raised along the modelled paths. */
  datatype Exception =
    | AppError(error: BaseError)        // errors.BaseError and its subclasses
    | ValueError(message: string)       // datetime.fromisoformat, the session-id validator
    | KeyError(key: string)             // a missing dictionary key
    | AttributeError(message: string)   // `.rstrip` on a front-matter date that is not a string
    | TypeError(message: string)        // `dict.update` with front matter that is not a mapping
    | YamlError(message: string)        // yaml.safe_load rejected the front matter
    | BackendError(message: string)     // the embedding service or the vector store failed
}
