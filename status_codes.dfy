/**
 Which HTTP statuses of an Anthropic response become which typed provider
 error. `None` means the status is not one of these: a success, or a failure
 that some other, generic path reports.
 */
module StatusCodes {
  import opened Wrappers

  datatype ErrorKind = RateLimited | ProviderOverloaded | RequestTooLarge

  /** The one status code Anthropic uses for each kind. */
  function StatusOf(kind: ErrorKind): (status: int)
    ensures 400 <= status < 600
  {
    match kind
    case RateLimited => 429
    case ProviderOverloaded => 529
    case RequestTooLarge => 413
  }

  function Classify(status: int): (kind: Option<ErrorKind>)
    ensures kind.Some? ==> StatusOf(kind.value) == status
    ensures kind.None? ==> forall k :: StatusOf(k) != status
  {
    if status == 429 then Some(RateLimited)
    else if status == 529 then Some(ProviderOverloaded)
    else if status == 413 then Some(RequestTooLarge)
    else None
  }

  /** Each kind is recognised from its own status, and from no other. */
  lemma ClassifyInvertsStatusOf(kind: ErrorKind, status: int)
    ensures Classify(StatusOf(kind)) == Some(kind)
    ensures Classify(status) == Some(kind) <==> status == StatusOf(kind)
  {
  }

  /**
   529 is the one server-error status with a kind of its own: it is an
   overload, and every other 5xx status is left to the generic path.
   */
  lemma OverloadIsTheOnlyServerErrorKind(status: int)
    requires 500 <= status < 600
    ensures Classify(status).Some? <==> status == 529
    ensures Classify(status).Some? ==> Classify(status).value == ProviderOverloaded
  {
  }
}
