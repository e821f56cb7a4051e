/** What an HTTP exchange yields, seen from the caller. The network itself is
    not modelled: a reply is an input to the operations that consume it. */
module Http {

  /** `http.StatusOK`. */
  const StatusOK: int := 200

  /** Either the request never produced a readable response (building it,
      sending it or reading the body failed), or a response arrived with a
      status code, a `Content-Type` header and a body. */
  datatype Reply =
    | Unreachable
    | Response(status: int, contentType: string, body: string)
}
