/** Values shared by the browser form and the server route: optional values,
    bytes, uploaded files and the values a JavaScript `catch` can receive. */
module Common {

  datatype Option<+T> = None | Some(value: T)

  /** One octet of a file's content or of `crypto.randomBytes`. */
  newtype byte = x: int | 0 <= x < 256

  /** The multipart form keys the client sends and the handler reads:
      `name`, `address`, `city`, `state`, `contact`, `email_id` and `image`. */
  datatype FieldName = NameField | AddressField | CityField | StateField | ContactField
                     | EmailIdField | ImageField

  /** A browser `File`: its name and its bytes; `size` is the byte count. */
  datatype File = File(name: string, content: seq<byte>)
  {
    function Size(): nat { |content| }
  }

  /** What a `catch (err)` clause receives: an `Error` object with a message,
      or any other thrown value. */
  datatype Thrown = ErrorObject(message: string) | OtherValue

  /** `err instanceof Error ? err.message : 'Unknown error'`. */
  function MessageOf(err: Thrown): string
  {
    match err
    case ErrorObject(message) => message
    case OtherValue => "Unknown error"
  }
}
