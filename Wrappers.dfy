/** Small value wrappers shared by every module of the model. */
module Wrappers {

  /** JavaScript's `undefined`/`null` versus a present value. */
  datatype Option<+T> = None | Some(value: T)

  /**
   * What a `fetch` of one of the lookup services delivers, as seen by the code
   * that awaits it: the call rejected (network error, abort on timeout, a body
   * that is not JSON), the server answered with a non-2xx status, or the
   * decoded body.
   */
  datatype Fetched<+T> = Threw | NotOk | Body(body: T)
}
