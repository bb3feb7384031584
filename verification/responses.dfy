/** The success envelope of src/controllers/response.rs. */
module Responses {
  import opened Http

  datatype SuccessResponse<T> = SuccessResponse(code: nat, message: string, data: T)

  /** `SuccessResponse::new`: the body code is always 200 OK. */
  function NewSuccess<T>(message: string, data: T): (r: SuccessResponse<T>)
    ensures r.code == STATUS_OK && r.message == message && r.data == data
  {
    SuccessResponse(STATUS_OK, message, data)
  }
}
