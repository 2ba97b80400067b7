/** EntityFinder: turns an Optional lookup into the entity or a NOT_FOUND error. */
module EntityFinder {
  import opened Common
  import opened Errors

  /** The error thrown for a missing entity: "<entityName> with ID <id> not found". */
  function MissingEntity(entityName: string, id: int): Error
  {
    ResponseStatus(NotFound, entityName + " with ID " + IdString(id) + " not found")
  }

  /**
   * `optional.orElseThrow(...)`: a present value comes back unchanged, an
   * absent one fails with NOT_FOUND. The value itself is never inspected,
   * so filtering deleted rows is the caller's job.
   */
  function FindByIdOrThrow<T>(optional: Option<T>, id: int, entityName: string): (r: Result<T>)
    ensures r.Ok? <==> optional.Some?
    ensures r.Ok? ==> r.value == optional.value
    ensures r.Err? ==> r.error == MissingEntity(entityName, id) && r.error.status == NotFound
  {
    match optional
    case Some(v) => Ok(v)
    case None => Err(MissingEntity(entityName, id))
  }
}
