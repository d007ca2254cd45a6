/** Types shared by the two halves of the browser's MIME code. */
module MimeTypes {
  import opened Wrappers
  import opened Base64

  /** Browser built-ins the scripts call; every result below holds for any choice of them. */
  datatype Browser = Browser(
    encodeUtf8: string -> seq<Byte>,
    decode: (string, seq<Byte>) -> Option<string>,      // new TextDecoder(label).decode(bytes)
    encodeURIComponent: string -> string,
    decodeURIComponent: string -> Option<string>)

  datatype Attachment = Attachment(name: string, contentType: string, bytes: seq<Byte>)

  /** One printed header field. */
  function FieldLine(name: string, value: string): string {
    name + ": " + value
  }
}
