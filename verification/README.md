# comprtest in Dafny

`comprtest` is a small Go tool that measures how well gzip compresses a file
when the file is cut into fixed-size pages and every page is compressed on its
own. It validates its command line, opens the file, takes its size from
`Stat`, then reads it into one reused buffer of `pageSize` bytes until a read
returns nothing. After every read it compresses the whole buffer, adds the
compressed length to a running total and counts the page. It prints page size,
page count, compressed total, file size and their ratio.

This project models that core and proves what it promises:

- `types.dfy`: bytes, the fatal conditions the model keeps (`Failure`),
  and a `Result` type that carries a value or the failure.
- `power2.dfy`: `toPower2` with `uint` fixed at 64 bits (its width on 64-bit
  platforms) as `bv64`, the properties of
  the round-up, and a corrected version (see Findings).
- `args.dfy`: the checks `parseArgs` makes on the parsed flags. The package-level
  variables it sets become a `Config` value; a panic becomes an `Err`.
- `compressor.dfy`: `comprPage`. The gzip encoder is a parameter, an arbitrary
  function from the page to a write error, a close error or the stream. Only
  the stream's length leaves `comprPage`.
- `paging.dfy`: `Pages`, the sequence of (byte count, buffer) pairs the loop
  sees, and the lemmas about it: page count, byte counts, coverage of the file,
  stale bytes, and the compressed total.
- `files.dfy`: the opened file as a class with a read cursor. `Read` copies
  `min(len(buf), unread)` bytes into the front of the buffer and leaves the rest
  of the buffer as it was. Only regular files are modelled, and one read is not
  capped in length (see "Left out").
- `benchmark.dfy`: `main` without its printing. `Run` validates, opens, takes
  the size and allocates the zeroed buffer. `Measure` is the read/compress loop,
  which works in place on an `array<byte>`. Both are proved against the
  function `Outcome`, and the lemmas state what a run reports.

Three behaviours of the code that the model keeps as they are:

- `-cmethod 1` is accepted and gzip still runs (comprtest.go:132, 180).
  `CompressMethodIgnored` proves that the outcome is identical to `-cmethod 0`.
- The page size is never checked. A zero page size gives zero-length reads, so
  no page is counted even for a non-empty file. A negative one makes `make`
  panic after the file was opened. See `PagesCount`, `PagesReadTotal`,
  `PagesData`, and `MakeSliceError` in `Outcome`.
- The whole buffer is always compressed, so a short last page is compressed
  together with the bytes of the page before it, or with zeros if it is the
  first page (`PagesKeepStaleBytes`, `TenThousandBytes`, `HundredBytes`).

## Model

| member | source | states |
|---|---|---|
| Power2.ToPower2 | comprtest.go:83-95 | input 0 wraps to 0: the decrement gives all ones and the increment wraps back |
| Power2.ToPower2RoundsUp | comprtest.go:83-95 | for 1 <= num <= 2^32 the result is a power of two r with num <= r and r/2 < num |
| Power2.ToPower2IsLeast | comprtest.go:80-95 | on that range no power of two at least num is smaller than the result: it is the next power of two |
| Power2.ToPower2KeepsPowers | comprtest.go:84-92 | every power of two is returned unchanged |
| Power2.ToPower2Idempotent | comprtest.go:83-95 | for num <= 2^32, rounding twice equals rounding once |
| Power2.ToPower2MissesWideInputs | comprtest.go:84-92 | as written, 2^32 + 1 becomes 2^33 - 1, which is not a power of two |
| Power2.ToPower2Wide | comprtest.go:83-95 | the corrected version with a 32-bit smearing step; 0 still wraps to 0 |
| Power2.ToPower2WideRoundsUp | comprtest.go:80-95 | the corrected version returns a power of two r with num <= r and r/2 < num for every 1 <= num <= 2^63 |
| Power2.ToPower2WideAgrees | comprtest.go:84-92 | the correction changes nothing for inputs up to 2^32 |
| Args.ParseArgs | comprtest.go:119-138 | rejects exactly an empty positional list (BadArgs, checked first) and a cmethod outside {0, 1}; on success every config value is the flag's value and the file name is the first positional argument |
| Args.ParseArgsComplete | comprtest.go:124-138 | every configuration comes out of the command line that describes it, whatever extra positional arguments follow |
| Args.ParseArgsSound | comprtest.go:119-138 | an accepted command line is exactly the description of the configuration it yields |
| Args.DefaultsAccepted | comprtest.go:111-115 | with only a file name, the run uses gzip, 8192-byte pages, terse output, log level 0 and no header |
| Compressor.ComprPage | comprtest.go:52-71 | succeeds exactly when the gzip writer's Write and Close both succeed, and returns the stream's length; every failure is ComprPageError |
| Files.File.Open | comprtest.go:163 | an opened file holds its contents, with the cursor at 0 |
| Files.File.Size | comprtest.go:166-169 | the size taken from `Stat` is the whole length of the file, and the read cursor never passes it |
| Files.File.Read | comprtest.go:174 | copies min(len(buf), unread) bytes to the front of buf, keeps the rest of buf, advances the cursor by that count, and signals EOF only for a zero count into a non-empty buffer |
| Paging.Pages | comprtest.go:173-177 | the loop stops at once exactly when the file is empty or the buffer has zero length, and every read consumes at least one byte, so it runs at most fSz times |
| Paging.PagesShape | comprtest.go:171-186 | every page holds 1..pageSize new bytes, every buffer given to the compressor is pageSize long, and only the last page can be short, so there is no empty trailing page |
| Paging.PagesCount | comprtest.go:173-186 | the loop runs ceil(fSz / pageSize) times, 0 times for an empty file, and 0 times for a zero page size |
| Paging.PagesLast | comprtest.go:173-177 | the last page holds fSz - (pageCount - 1) * pageSize bytes |
| Paging.PagesReadTotal | comprtest.go:169-177 | the counts returned by the reads sum exactly to fSz (to 0 for a zero page size) |
| Paging.PagesData | comprtest.go:173-177 | the filled prefixes of the buffers, concatenated, are exactly the file: no byte is dropped or read twice |
| Paging.PagesKeepStaleBytes | comprtest.go:171-180 | behind the count bytes a read filled, the buffer given to the compressor still holds the previous page's bytes, or the initial zeros on the first read |
| Paging.PagesUnfold | comprtest.go:174-177 | one non-empty read produces one page with the overwritten buffer, followed by the pages of the rest |
| Paging.Compressed | comprtest.go:180-183 | the running total over the pages fails only with ComprPageError |
| Paging.CompressedSnoc | comprtest.go:180-185 | compressing one more page adds its compressed length to the total |
| Paging.CompressedOk | comprtest.go:180-181 | the run has a compressed total exactly when every page compresses |
| Paging.CompressedGrows | comprtest.go:183 | the running total after fewer pages is at most the total after more: it never decreases |
| Benchmark.Measure | comprtest.go:173-186 | the loop, in place on the buffer, ends with the page count and compressed total of Pages over the unread bytes and the buffer's old contents, and reads the file to its end; with a zero-length buffer the cursor does not move |
| Benchmark.ReadPage | comprtest.go:174-177 | the read at the head of the loop: a read that stops the loop (no bytes, or EOF) leaves the cursor where it was and nothing of the run unread, at the end of the file for a non-empty buffer; any other read moves the cursor forward and yields the next page of the run, whose buffer is the array just filled |
| Benchmark.Outcome | comprtest.go:145-186 | the run fails with OpenError exactly when the command line is accepted and names no existing file, and with MakeSliceError exactly when the file exists and the page size is negative (allocation of larger sizes is not modelled to fail) |
| Benchmark.Run | comprtest.go:145-186 | the program's outcome is Outcome: validate, open, stat, allocate a zeroed buffer, then measure |
| Benchmark.OutcomeCounts | comprtest.go:169-196 | a completed run reports the Stat size, the flag's page size, ceil(size / pageSize) pages (0 for a zero page size) and no compressed bytes when there were no pages |
| Benchmark.ValidationFirst | comprtest.go:119-164 | a rejected command line ends the run with its own error before the file is opened, whatever the file system holds, and those errors arise from nothing else |
| Benchmark.CompressMethodIgnored | comprtest.go:126-132 | -cmethod 1 gives the same outcome as -cmethod 0, compressed sizes included, because gzip is always used |
| Benchmark.TenThousandBytes | comprtest.go:171-180 | a 10,000-byte file in 4096-byte pages gives reads of 4096, 4096 and 1808 bytes; the third buffer is the file's last 1808 bytes followed by 2288 stale bytes of the second page |
| Benchmark.HundredBytes | comprtest.go:171-180 | a 100-byte file with the default page size gives one read of 100 bytes, and gzip gets those bytes followed by 8092 zeros |

## Findings

| source | as written | input that shows it | evidently intended | confidence | as-written member | corrected member |
|---|---|---|---|---|---|---|
| comprtest.go:84-92 | `toPower2` smears with shifts 1, 2, 4, 8 and 16 only, on a 64-bit `uint` | num = 2^32 + 1 gives 2^33 - 1, which is not a power of two | one more step that ORs num with num shifted right by 32, so that every num from 1 to 2^63 rounds up to the next power of two | medium, not executed (the function is never called, and where `uint` is 32 bits wide the five steps suffice) | Power2.ToPower2MissesWideInputs | Power2.ToPower2WideRoundsUp |

## Left out

- The gzip encoding itself (`compress/gzip` writing into a `bytes.Buffer`). It is a parameter of the model. Its Write and Close errors are kept as outcomes.
- LZ4. It is not implemented anywhere; `-cmethod 1` selects nothing but the configuration value.
- The compression ratio (comprtest.go:190). It is a floating-point division, and an empty file gives 0/0.
- All printing: the usage text, `echoArgs`, the header row, the result row's formatting, and the start, end and elapsed times (`time.Now`).
- The `flag` package's parsing. The model starts from the parsed values (`Args.Flags`).
- `doInit`'s `rand.Seed`, the unused `maxPages`, and `logLevel`, which is kept in the configuration but has no effect.
- The initial value 16384 of the `pageSize` variable. It is never observed: `parseArgs` overwrites it or panics.
- A failing `Stat`. It panics (comprtest.go:166-167); the model's files always have a size.
- Read errors. A failing `Read` of an `*os.File` returns no bytes, so the test at comprtest.go:175 stops the loop on it exactly as at end of file, and the run reports the pages read so far. Only an error that comes with bytes would reach the "Read error" panic at line 178. The regular-file read model never fails, so neither case is modelled.
- Closing the file. The program leaves it to process exit.
- Files.File.Read: one Go `Read` of an `*os.File` returns at most 2^30 bytes (and Linux's `read` stops just below 2^31), while the model's reads are uncapped. For `-pgsz` above 2^30 the program makes more, partly filled reads. The lemmas on page count, page shape and stale bytes (`PagesCount`, `PagesShape`, `PagesLast`, `PagesKeepStaleBytes`, `OutcomeCounts`) describe the program only for `-pgsz` up to 2^30. Only regular files are modelled: for a pipe or a /proc file, the `Stat` size need not match what the reads return.
- Benchmark.Outcome: allocation never fails for a non-negative page size. On a 64-bit platform `make` (comprtest.go:171) also panics for sizes above the runtime's allocation limit, and a size the machine cannot supply ends in a fatal out-of-memory error; the model returns a `Report` in both cases.
- Benchmark.Measure: `pageCount` and `totalComprSz` are unbounded naturals, not Go's `int64`; their overflow is not modelled.
- The `toPower2` result is never used by the program. It is modelled on its own.
