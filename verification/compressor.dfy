/** `comprPage` (comprtest.go:52-71): write a page into a fresh gzip stream,
    close the stream and keep only the length of what it produced. The gzip
    encoder (Go's `compress/gzip` writing into a `bytes.Buffer`) is not
    modelled: it is a parameter of type `Gzip`, an arbitrary function from the
    page to what the writer does with it. */
module Compressor {
  import opened Types

  /** What one run of the gzip writer over a page ends in: `Write` fails,
      `Close` fails, or the stream is flushed with the bytes it holds. */
  datatype GzipOutcome = WriteFailed | CloseFailed | Flushed(stream: seq<byte>)

  /** The gzip encoder, left uninterpreted. */
  type Gzip = seq<byte> -> GzipOutcome

  /** The compressed length of `data`, or the writer's error. The stream
      itself is thrown away: only its length leaves the function. */
  function ComprPage(gzip: Gzip, data: seq<byte>): (r: Result<nat>)
    ensures r.Ok? <==> gzip(data).Flushed?
    ensures r.Ok? ==> r.value == |gzip(data).stream|
    ensures r.Err? ==> r.error == ComprPageError
  {
    match gzip(data)
    case WriteFailed => Err(ComprPageError)
    case CloseFailed => Err(ComprPageError)
    case Flushed(stream) => Ok(|stream|)
  }
}
