/** The enumerations and small records shared by every part of the server
    (server_enums.h, reqres.h, strview.h).  A byte is modelled as a `char`. */
module Types {

  datatype Option<+T> = None | Some(value: T)

  datatype Method = GET | PUT | HEAD | NONE_YET | UNKNOWN

  datatype Stage =
    | REQUEST_LINE
    | HEADER_FIELDS
    | READ_BODY
    | BUILD_HEADER
    | SEND_HEADER
    | READ_FILE
    | SEND_RES
    | FINISHED

  datatype Status =
    | OK
    | CREATED
    | BAD_REQUEST
    | FORBIDDEN
    | NOT_FOUND
    | INTERNAL_ERROR
    | NOT_IMPLEMENTED

  /** The numeric value the C enumeration gives each status. */
  function Code(status: Status): nat {
    match status
    case OK => 200
    case CREATED => 201
    case BAD_REQUEST => 400
    case FORBIDDEN => 403
    case NOT_FOUND => 404
    case INTERNAL_ERROR => 500
    case NOT_IMPLEMENTED => 501
  }

  predicate IsError(status: Status) {
    Code(status) >= 400
  }

  /** A half-open range of positions in a buffer; `Invalid` is the pair of null pointers. */
  datatype View = Invalid | View(start: nat, end: nat)

  /** The size of every request and response buffer. */
  const MAX_HEADER: nat := 2050
  const MAX_PATH: nat := 300
  const READ_LEN: nat := 10000
  const MAX_LOG: nat := 500
  const TWO_63: int := 0x8000_0000_0000_0000
  const TWO_64: int := 0x1_0000_0000_0000_0000

  const CRLF: string := "\r\n"
}
