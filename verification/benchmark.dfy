/** The body of `main` (comprtest.go:145-202) without its printing and
    timing: validate the command line, open the file, take its size, then
    read it page by page into one reused buffer, compress each page with
    gzip and add up the compressed lengths. The file system is a map from
    names to contents; the gzip encoder is a parameter. */
module Benchmark {
  import opened Types
  import opened Args
  import opened Compressor
  import opened Paging
  import opened Files

  /** The integers of the result row (comprtest.go:196): page size, page
      count, total compressed bytes and the file size. */
  datatype Report = Report(pageSize: int, pageCount: nat, compressed: nat, uncompressed: nat)

  type FileSystem = map<string, seq<byte>>

  /** The two counters the loop keeps (comprtest.go:147-148). */
  datatype Totals = Totals(pageCount: nat, compressed: nat)

  /** What the loop ends in after reading `pages`: one count per page and the
      sum of the compressed lengths, or the compressor's error. */
  function Measured(gzip: Gzip, pages: seq<Page>): Result<Totals> {
    match Compressed(gzip, pages)
    case Err(e) => Err(e)
    case Ok(total) => Ok(Totals(|pages|, total))
  }

  /** What one run of the program ends in. `os.Open` fails exactly when the
      command line was accepted and names no file. In this model `make` panics
      exactly when the file opened and the page size is negative: allocation
      of a non-negative size never fails here. */
  function Outcome(flags: Flags, fs: FileSystem, gzip: Gzip): (r: Result<Report>)
    ensures r == Err(OpenError) <==> ParseArgs(flags).Ok? && flags.args[0] !in fs
    ensures r == Err(MakeSliceError) <==> ParseArgs(flags).Ok? && flags.args[0] in fs && flags.pgsz < 0
  {
    match ParseArgs(flags)
    case Err(e) => Err(e)
    case Ok(cfg) =>
      if cfg.inFileName !in fs then
        Err(OpenError)
      else if cfg.pageSize < 0 then
        Err(MakeSliceError)
      else
        var contents := fs[cfg.inFileName];
        match Measured(gzip, FilePages(contents, cfg.pageSize))
        case Err(e) => Err(e)
        case Ok(t) => Ok(Report(cfg.pageSize, t.pageCount, t.compressed, |contents|))
  }

  /** The program itself. The compressor is always gzip, whatever
      `-cmethod` selected (comprtest.go:180). */
  method Run(flags: Flags, fs: FileSystem, gzip: Gzip) returns (r: Result<Report>)
    ensures r == Outcome(flags, fs, gzip)
  {
    var parsed := ParseArgs(flags);
    if parsed.Err? {
      return Err(parsed.error);
    }
    var cfg := parsed.value;
    if cfg.inFileName !in fs {
      return Err(OpenError);
    }
    var f := new File.Open(fs[cfg.inFileName]);
    var fSz := f.Size();
    if cfg.pageSize < 0 {
      return Err(MakeSliceError);
    }
    var data := new byte[cfg.pageSize](_ => 0);
    assert data[..] == Zeros(cfg.pageSize);
    var totals := Measure(f, data, gzip);
    if totals.Err? {
      return Err(totals.error);
    }
    return Ok(Report(cfg.pageSize, totals.value.pageCount, totals.value.compressed, fSz));
  }

  /** The loop of `main` (comprtest.go:173-186): read into `data` until a read
      returns no bytes, compressing the whole buffer after every read. */
  method Measure(f: File, data: array<byte>, gzip: Gzip) returns (r: Result<Totals>)
    requires f.Valid()
    modifies f, data
    ensures f.Valid()
    ensures r == Measured(gzip, Pages(f.contents[old(f.pos)..], old(data[..])))
    ensures r.Ok? && data.Length > 0 ==> f.pos == |f.contents|
    ensures data.Length == 0 ==> f.pos == old(f.pos)
  {
    ghost var pages := Pages(f.contents[f.pos..], data[..]);
    ghost var done: seq<Page> := [];
    var pageCount: nat := 0;
    var totalComprSz: nat := 0;
    while true
      invariant f.Valid()
      invariant done + Pages(f.contents[f.pos..], data[..]) == pages
      invariant pageCount == |done|
      invariant Compressed(gzip, done) == Ok(totalComprSz)
      invariant data.Length == 0 ==> f.pos == old(f.pos)
      decreases |f.contents| - f.pos
    {
      ghost var page: Page;
      var count, eof;
      count, eof, page := ReadPage(f, data, done, pages);
      if count == 0 || eof {
        break;
      }
      var comprCount := ComprPage(gzip, data[..]);
      if comprCount.Err? {
        MeasureFails(gzip, done, page, pages);
        return Err(comprCount.error);
      }
      MeasureAdds(gzip, done, page, totalComprSz, comprCount.value);
      totalComprSz := totalComprSz + comprCount.value;
      pageCount := pageCount + 1;
      done := done + [page];
    }
    return Ok(Totals(pageCount, totalComprSz));
  }

  /** The read at the head of the loop (comprtest.go:174-177), seen against
      the run `pages` of which `done` have been read: a read that stops the
      loop leaves nothing unread of the run, and any other read yields the
      next page of the run, whose buffer is now `data`. */
  method ReadPage(f: File, data: array<byte>, ghost done: seq<Page>, ghost pages: seq<Page>)
      returns (count: nat, eof: bool, ghost page: Page)
    requires f.Valid()
    requires done + Pages(f.contents[f.pos..], data[..]) == pages
    modifies f, data
    ensures f.Valid() && count <= data.Length
    ensures count == 0 || eof ==>
      done == pages && f.pos == old(f.pos) && (data.Length > 0 ==> f.pos == |f.contents|)
    ensures !(count == 0 || eof) ==>
      old(f.pos) < f.pos && |done| < |pages| && pages[|done|] == page && page.buffer == data[..] &&
      (done + [page]) + Pages(f.contents[f.pos..], data[..]) == pages
  {
    ghost var pos, buf := f.pos, data[..];
    count, eof := f.Read(data);
    page := Page(count, data[..]);
    if count == 0 || eof {
      PagesStop(f.contents, pos, buf, done, pages);
    } else {
      PagesStep(f.contents, pos, buf, page, f.pos, done, pages);
    }
  }

  /** A page the compressor accepts adds its compressed length `c` to the
      running total. */
  lemma MeasureAdds(gzip: Gzip, done: seq<Page>, page: Page, total: nat, c: nat)
    requires Compressed(gzip, done) == Ok(total)
    requires ComprPage(gzip, page.buffer) == Ok(c)
    ensures Compressed(gzip, done + [page]) == Ok(total + c)
  {
    CompressedSnoc(gzip, done, page);
  }

  /** A page the compressor rejects ends the whole run in its error. */
  lemma MeasureFails(gzip: Gzip, done: seq<Page>, page: Page, pages: seq<Page>)
    requires |done| < |pages| && pages[|done|] == page
    requires ComprPage(gzip, page.buffer).Err?
    ensures Measured(gzip, pages) == Err(ComprPage(gzip, page.buffer).error)
  {
    CompressedOk(gzip, pages);
  }

  /** A completed run reports the file's size as given by `Stat`, the page
      size from the command line, `ceil(size / pageSize)` pages (none for an
      empty file, and none at all for a zero page size, whose reads return
      nothing), and no compressed bytes when there were no pages. */
  lemma OutcomeCounts(flags: Flags, fs: FileSystem, gzip: Gzip)
    requires Outcome(flags, fs, gzip).Ok?
    ensures |flags.args| > 0 && flags.args[0] in fs
    ensures Outcome(flags, fs, gzip).value.uncompressed == |fs[flags.args[0]]|
    ensures Outcome(flags, fs, gzip).value.pageSize == flags.pgsz >= 0
    ensures Outcome(flags, fs, gzip).value.pageCount ==
      if flags.pgsz == 0 then 0 else CeilDiv(|fs[flags.args[0]]|, flags.pgsz)
    ensures Outcome(flags, fs, gzip).value.pageCount == 0 ==> Outcome(flags, fs, gzip).value.compressed == 0
  {
    var contents := fs[flags.args[0]];
    PagesCount(contents, Zeros(flags.pgsz));
  }

  /** The command line is checked before the file is opened: a rejected
      command line ends the run with its own error whatever the file system
      holds, and those two errors arise from nothing else. */
  lemma ValidationFirst(flags: Flags, fs: FileSystem, gzip: Gzip)
    ensures ParseArgs(flags).Err? ==> Outcome(flags, fs, gzip) == Err(ParseArgs(flags).error)
    ensures Outcome(flags, fs, gzip) in {Err(BadArgs), Err(WrongCompressionMethod)} <==> ParseArgs(flags).Err?
  {
    match ParseArgs(flags)
    case Err(e) =>
    case Ok(cfg) =>
      if cfg.inFileName in fs && cfg.pageSize >= 0 {
        CompressedOk(gzip, FilePages(fs[cfg.inFileName], cfg.pageSize));
      }
  }

  /** `-cmethod 1` is accepted but changes nothing: the run is the same as
      with `-cmethod 0`, compressed sizes included. */
  lemma CompressMethodIgnored(flags: Flags, fs: FileSystem, gzip: Gzip)
    ensures Outcome(flags.(cmethod := 1), fs, gzip) == Outcome(flags.(cmethod := 0), fs, gzip)
  {
  }

  /** A 10,000-byte file read in 4096-byte pages: three reads of 4096, 4096
      and 1808 bytes. The third buffer handed to gzip is the last 1808 bytes
      of the file followed by the 2288 bytes of the second page it did not
      overwrite. */
  lemma TenThousandBytes(s: seq<byte>)
    requires |s| == 10000
    ensures |FilePages(s, 4096)| == 3
    ensures FilePages(s, 4096)[0].count == 4096 && FilePages(s, 4096)[1].count == 4096
    ensures FilePages(s, 4096)[2].count == 1808
    ensures FilePages(s, 4096)[2].buffer == s[8192..] + s[5904..8192]
  {
    var z := Zeros(4096);
    var b0 := Overlay(z, s[..4096]);
    PagesUnfold(s, 0, z, 4096);
    var b1 := Overlay(b0, s[4096..8192]);
    PagesUnfold(s, 4096, b0, 4096);
    var b2 := Overlay(b1, s[8192..10000]);
    PagesUnfold(s, 8192, b1, 1808);
    assert s[10000..] == [];
    assert b2 == s[8192..] + s[5904..8192];
  }

  /** A 100-byte file read with the default 8192-byte pages: one read of
      100 bytes, and gzip is handed those bytes followed by 8092 zeros. */
  lemma HundredBytes(s: seq<byte>)
    requires |s| == 100
    ensures |FilePages(s, DefaultPageSize)| == 1
    ensures FilePages(s, DefaultPageSize)[0].count == 100
    ensures FilePages(s, DefaultPageSize)[0].buffer == s + Zeros(8092)
  {
    var z := Zeros(8192);
    PagesUnfold(s, 0, z, 100);
    assert s[100..] == [];
    assert z[100..] == Zeros(8092);
  }
}
