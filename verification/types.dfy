/** Values shared by the whole model of comprtest.go: bytes, the fatal
    conditions that make the program panic, and a result type that carries
    either a value or the condition that stopped the run. */
module Types {

  /** Go's `byte`. */
  newtype byte = b: int | 0 <= b < 256

  /** The fatal conditions the model keeps, in the order the program can
      meet them. A failing `Stat` also prints and panics, and so would a
      `Read` error that came with bytes; the model leaves those out (see
      "Left out" in the README). A failing `Read` that returns no bytes is
      not fatal: the loop stops on it as on end of file (comprtest.go:175). */
  datatype Failure =
    | BadArgs                 // no positional file argument (comprtest.go:119-122)
    | WrongCompressionMethod  // -cmethod outside {0, 1} (comprtest.go:126-128)
    | OpenError               // os.Open fails (comprtest.go:163-164)
    | MakeSliceError          // make([]byte, pageSize) with a negative size (comprtest.go:171); see README "Left out" for sizes that are too large
    | ComprPageError          // the gzip writer reports an error (comprtest.go:180-181)

  datatype Result<T> = Ok(value: T) | Err(error: Failure)
}
