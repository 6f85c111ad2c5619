/** Optional values and results shared by the modules of this model. */
module Wrappers {

  datatype Option<+T> = None | Some(value: T)

  datatype Result<+T, +E> = Ok(value: T) | Err(error: E)
}

/** The part of an HTTP response that the handlers decide: a status code and a JSON body. */
module Http {

  datatype Response<+B> = Response(status: int, body: B)
}
