/** The checks `parseArgs` (comprtest.go:110-143) makes on the command line
    once the `flag` package has parsed it. Flag parsing itself is not modelled:
    `Flags` holds the values it produced. The package-level variables that
    `parseArgs` assigns become the fields of the returned `Config`; a panic
    becomes an `Err`. */
module Args {
  import opened Types

  /** Defaults of the five flags (comprtest.go:111-115). */
  const DefaultPageSize := 8192
  const DefaultCompressMethod := 0
  const DefaultTerse := true
  const DefaultLogLevel := 0
  const DefaultPrintHeader := false

  /** `CompressGzip` and `CompressLz4` (comprtest.go:14-19). */
  datatype CompressMethod = Gzip | Lz4

  /** The integer a method is selected by on the command line. */
  function MethodCode(m: CompressMethod): int {
    match m
    case Gzip => 0
    case Lz4 => 1
  }

  /** What `flag.Parse` leaves behind: the five flag values and the
      positional arguments `flag.Args()`. */
  datatype Flags = Flags(
    pgsz: int,
    cmethod: int,
    terse: bool,
    loglevel: int,
    header: bool,
    args: seq<string>)

  /** The flags as they are when only positional arguments are given. */
  function DefaultFlags(args: seq<string>): Flags {
    Flags(DefaultPageSize, DefaultCompressMethod, DefaultTerse, DefaultLogLevel, DefaultPrintHeader, args)
  }

  /** The package-level configuration `parseArgs` assigns (comprtest.go:29-36).
      The page size is not checked by the program, so it stays an `int`; the
      log level is converted without any check either. */
  datatype Config = Config(
    pageSize: int,
    compressMethod: CompressMethod,
    terse: bool,
    logLevel: int,
    inFileName: string,
    printHeader: bool)

  /** Validation of the parsed flags: a missing file argument is rejected
      first, then a compression method other than 0 or 1. A `Config` is
      returned only when both checks pass; the program assigns `inFileName`
      before the method check (comprtest.go:124), but the panic that follows
      makes that unobservable. Positional arguments after the first are
      ignored. */
  function ParseArgs(f: Flags): (r: Result<Config>)
    ensures r.Ok? <==> |f.args| > 0 && (f.cmethod == 0 || f.cmethod == 1)
    ensures |f.args| == 0 ==> r == Err(BadArgs)
    ensures |f.args| > 0 && f.cmethod != 0 && f.cmethod != 1 ==> r == Err(WrongCompressionMethod)
    ensures r.Ok? ==> MethodCode(r.value.compressMethod) == f.cmethod && r.value.inFileName == f.args[0]
    ensures r.Ok? ==> r.value.pageSize == f.pgsz && r.value.terse == f.terse
    ensures r.Ok? ==> r.value.logLevel == f.loglevel && r.value.printHeader == f.header
  {
    if |f.args| == 0 then
      Err(BadArgs)
    else if f.cmethod != MethodCode(Gzip) && f.cmethod != MethodCode(Lz4) then
      Err(WrongCompressionMethod)
    else
      var m := if f.cmethod == MethodCode(Gzip) then Gzip else Lz4;
      Ok(Config(f.pgsz, m, f.terse, f.loglevel, f.args[0], f.header))
  }

  /** A command line that selects configuration `c`, with `extra` positional
      arguments after the file name. */
  function FlagsFor(c: Config, extra: seq<string>): Flags {
    Flags(c.pageSize, MethodCode(c.compressMethod), c.terse, c.logLevel, c.printHeader, [c.inFileName] + extra)
  }

  /** Every configuration is reachable from the command line: parsing the
      flags that describe it gives it back. */
  lemma ParseArgsComplete(c: Config, extra: seq<string>)
    ensures ParseArgs(FlagsFor(c, extra)) == Ok(c)
  {
  }

  /** Conversely an accepted command line is exactly the description of the
      configuration it yields: nothing else in the flags was dropped. */
  lemma ParseArgsSound(f: Flags)
    requires ParseArgs(f).Ok?
    ensures f == FlagsFor(ParseArgs(f).value, f.args[1..])
  {
  }

  /** With only a file name given, the program runs gzip on 8192-byte pages. */
  lemma DefaultsAccepted(name: string)
    ensures ParseArgs(DefaultFlags([name])) == Ok(Config(8192, Gzip, true, 0, name, false))
  {
  }
}
