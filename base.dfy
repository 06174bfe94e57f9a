/** Values shared by every part of the packing pipeline: optional values,
    bytes, and the browser's File and Blob objects. */
module Base {

  datatype Option<+T> = None | Some(value: T)

  /** One octet of a Uint8Array / ArrayBuffer. */
  type byte = b: int | 0 <= b < 256

  /** A browser `Blob`: its bytes and its MIME type (`blob.type`). */
  datatype Blob = Blob(bytes: seq<byte>, mime: string)

  /** A browser `File`: a named Blob. Its size is the number of its bytes. */
  datatype File = File(name: string, mime: string, content: seq<byte>) {
    function Size(): nat { |content| }
  }

  /** The MIME type of a PDF document. */
  const PdfMime: string := "application/pdf"

  /** The two kinds of document the batch accepts (`FileKindEnum`). */
  datatype FileKind = Pdf | Image

  function Min(a: int, b: int): int { if a <= b then a else b }
  function Max(a: int, b: int): int { if a >= b then a else b }
}
