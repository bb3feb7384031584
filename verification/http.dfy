/** The few pieces of actix-web's HTTP vocabulary the model needs: status
    codes as numbers and a response as a status plus a (not yet
    serialised) body. */
module Http {

  const STATUS_OK: nat := 200
  const STATUS_BAD_REQUEST: nat := 400
  const STATUS_UNAUTHORIZED: nat := 401
  const STATUS_NOT_FOUND: nat := 404
  const STATUS_INTERNAL_SERVER_ERROR: nat := 500

  datatype HttpResponse<B> = HttpResponse(status: nat, body: B)
}
