/** The failure-normalisation boundary that every repository operation runs
    inside. The operation's outcome goes in; its value, one of the two
    domain exceptions, or a generic internal error comes out, and only the
    last case is logged. The repository class applies it and appends
    `Logged` to its log. */
module BaseRepository {
  import opened Outcomes

  /** The exceptions that are rethrown as they are. */
  predicate IsDomainError(e: Error) {
    e.NotFound? || e.BadRequest?
  }

  /** The result of `run(context, fn)` when `fn` produced `outcome`. */
  function Normalize<T>(context: string, outcome: Result<T>): (r: Result<T>)
    ensures outcome.Ok? ==> r == outcome
    ensures outcome.Err? && IsDomainError(outcome.error) ==> r == outcome
    ensures outcome.Err? && !IsDomainError(outcome.error) ==> r == Err(InternalServerError(context))
    ensures r.Err? ==> IsDomainError(r.error) || r.error == InternalServerError(context)
  {
    match outcome
    case Ok(_) => outcome
    case Err(e) => if IsDomainError(e) then outcome else Err(InternalServerError(context))
  }

  /** The entries `run` writes to the error log for that outcome. */
  function Logged<T>(context: string, outcome: Result<T>): (entries: seq<string>)
    ensures entries == [] || entries == [context]
  {
    if outcome.Err? && !IsDomainError(outcome.error) then [context] else []
  }

  /** A log entry is written exactly when the caller receives the generic
      internal error: never on success, never for a rethrown domain error. */
  lemma LoggedOnlyOnInternal<T>(context: string, outcome: Result<T>)
    ensures Logged(context, outcome) != [] <==>
              Normalize(context, outcome).Err? && Normalize(context, outcome).error.InternalServerError?
  {
  }

  /** An outcome that already went through the boundary passes it again
      unchanged. */
  lemma NormalizeIdempotent<T>(context: string, outcome: Result<T>)
    ensures Normalize(context, Normalize(context, outcome)) == Normalize(context, outcome)
  {
  }
}
