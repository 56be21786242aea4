/** The constants and types the server's header declares. */
module ServerH {

  /** Capacity of the receive buffer and of every string field. */
  const BUFFER_SIZE: nat := 2048

  datatype HttpMethod = Get | Post

  datatype HttpCode = Ok | NotFound | InternalServerError

  /** The numeric value each status code carries on the wire. */
  function CodeValue(code: HttpCode): (v: nat)
    ensures 100 <= v < 1000
  {
    match code
    case Ok => 200
    case NotFound => 404
    case InternalServerError => 500
  }

  /** What the server answers. `Text` is the header's Response record: a
      code and a NUL-terminated message, written out by send_response.
      `File` is the answer of the file branch, which writes its own
      octet-stream header and then the content. */
  datatype Response =
    | Text(code: HttpCode, message: string)
    | File(data: seq<char>)
}
