/** The HTTP outcome of a handler, reduced to its status and the value the
    handler leaves behind (the new directory, or the looked-up data). */
module Http {

  /** The status codes the handlers of both directories answer with. */
  datatype Status = Ok | Created | NoContent | PartialContent | BadRequest | Forbidden | NotFound

  /** A status paired with the value a handler produces. */
  datatype Reply<+T> = Reply(status: Status, value: T)
}
