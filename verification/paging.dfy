/** The pages that the measurement loop in `main` (comprtest.go:169-186) sees
    when it reads a regular file into one reused buffer: the byte count each
    `Read` reports and the whole buffer that is then handed to `comprPage`.
    `Pages` is the specification the loop is proved against; the lemmas say
    what the program promises about it. */
module Paging {
  import opened Types
  import opened Compressor
  import opened Files

  /** One iteration of the loop: what `Read` returned and the buffer that was
      compressed afterwards (comprtest.go:174, 180). */
  datatype Page = Page(count: nat, buffer: seq<byte>)

  /** The pages read from the unread bytes `rest` into buffer `buf`. A read
      fills `min(|buf|, |rest|)` bytes; a read of zero bytes ends the loop.
      The loop stops at once exactly when there is nothing to read or nowhere
      to put it, and every read consumes at least one byte. */
  function Pages(rest: seq<byte>, buf: seq<byte>): (r: seq<Page>)
    ensures |r| == 0 <==> |rest| == 0 || |buf| == 0
    ensures |r| <= |rest|
    decreases |rest|
  {
    var count := Min(|buf|, |rest|);
    if count == 0 then
      []
    else
      var next := Overlay(buf, rest[..count]);
      [Page(count, next)] + Pages(rest[count..], next)
  }

  /** A fresh Go slice `make([]byte, n)`: all zeros. */
  function Zeros(n: nat): (z: seq<byte>)
    ensures |z| == n
    ensures forall i :: 0 <= i < n ==> z[i] == 0
  {
    seq(n, _ => 0)
  }

  /** The pages of a whole file read with page size `n`. */
  function FilePages(contents: seq<byte>, n: nat): seq<Page> {
    Pages(contents, Zeros(n))
  }

  /** `a / n` rounded up. */
  function CeilDiv(a: nat, n: nat): nat
    requires n > 0
  {
    (a + n - 1) / n
  }

  /** The buffer `comprPage` saw on the iteration before page `i`, or the
      initial buffer for the first page. */
  function Before(ps: seq<Page>, buf: seq<byte>, i: nat): seq<byte>
    requires i < |ps|
  {
    if i == 0 then buf else ps[i - 1].buffer
  }

  /** The bytes the reads delivered, page after page. */
  function Data(ps: seq<Page>): seq<byte>
    requires forall i :: 0 <= i < |ps| ==> ps[i].count <= |ps[i].buffer|
  {
    if ps == [] then [] else ps[0].buffer[..ps[0].count] + Data(ps[1..])
  }

  /** The sum of the byte counts the reads returned. */
  function ReadTotal(ps: seq<Page>): nat {
    if ps == [] then 0 else ps[0].count + ReadTotal(ps[1..])
  }

  /** The sum of `comprPage`'s results over the pages, or its error if it
      fails on any of them (comprtest.go:180-183). The only way the loop
      can fail is through the compressor. */
  function Compressed(gzip: Gzip, ps: seq<Page>): (r: Result<nat>)
    ensures r.Err? ==> r.error == ComprPageError
    decreases |ps|
  {
    if ps == [] then
      Ok(0)
    else
      match Compressed(gzip, ps[..|ps| - 1])
      case Err(e) => Err(e)
      case Ok(total) =>
        match ComprPage(gzip, ps[|ps| - 1].buffer)
        case Err(e) => Err(e)
        case Ok(c) => Ok(total + c)
  }

  /** One read of `count > 0` bytes at offset `pos` of `contents`: the first
      page, then the pages of what is left, read into the updated buffer. */
  lemma PagesUnfold(contents: seq<byte>, pos: nat, buf: seq<byte>, count: nat)
    requires pos <= |contents| && count == Min(|buf|, |contents| - pos) && count > 0
    ensures Pages(contents[pos..], buf) ==
      [Page(count, Overlay(buf, contents[pos..pos + count]))]
      + Pages(contents[pos + count..], Overlay(buf, contents[pos..pos + count]))
  {
    var rest := contents[pos..];
    var chunk := contents[pos..pos + count];
    assert |rest| == |contents| - pos;
    assert rest[..count] == chunk;
    assert rest[count..] == contents[pos + count..];
    assert Pages(rest, buf) == [Page(count, Overlay(buf, chunk))] + Pages(rest[count..], Overlay(buf, chunk));
  }

  /** The loop's view of `PagesUnfold`: after the pages `done`, a read of
      `page.count > 0` bytes that moves the cursor to `next` yields the next
      page of the run `pages`. */
  lemma PagesStep(contents: seq<byte>, pos: nat, buf: seq<byte>, page: Page, next: nat,
                  done: seq<Page>, pages: seq<Page>)
    requires pos <= |contents| && page.count == Min(|buf|, |contents| - pos) && page.count > 0
    requires next == pos + page.count
    requires page.buffer == Overlay(buf, contents[pos..next])
    requires done + Pages(contents[pos..], buf) == pages
    ensures |done| < |pages| && pages[|done|] == page
    ensures (done + [page]) + Pages(contents[next..], page.buffer) == pages
  {
    var rest := contents[pos..];
    assert rest[..page.count] == contents[pos..next];
    assert rest[page.count..] == contents[next..];
    var tail := Pages(contents[next..], page.buffer);
    assert Pages(rest, buf) == [page] + tail;
    assert (done + [page]) + tail == done + ([page] + tail);
  }

  /** A read of zero bytes ends the run: the pages seen so far are all. */
  lemma PagesStop(contents: seq<byte>, pos: nat, buf: seq<byte>, done: seq<Page>, pages: seq<Page>)
    requires pos <= |contents| && Min(|buf|, |contents| - pos) == 0
    requires done + Pages(contents[pos..], buf) == pages
    ensures done == pages
  {
    assert Pages(contents[pos..], buf) == [];
    assert done + [] == done;
  }

  /** Adding one page to the run adds its compressed length to the total. */
  lemma CompressedSnoc(gzip: Gzip, ps: seq<Page>, p: Page)
    requires Compressed(gzip, ps).Ok? && ComprPage(gzip, p.buffer).Ok?
    ensures Compressed(gzip, ps + [p]) == Ok(Compressed(gzip, ps).value + ComprPage(gzip, p.buffer).value)
  {
  }

  /** Every page holds between 1 and `|buf|` new bytes, every buffer handed to
      the compressor is the full `|buf|` long, and only the last page can be
      short: so a file whose size is a multiple of the page size produces no
      empty trailing page. */
  lemma {:induction false} PagesShape(rest: seq<byte>, buf: seq<byte>)
    ensures forall i :: 0 <= i < |Pages(rest, buf)| ==>
      0 < Pages(rest, buf)[i].count <= |buf| && |Pages(rest, buf)[i].buffer| == |buf|
    ensures forall i :: 0 <= i < |Pages(rest, buf)| - 1 ==> Pages(rest, buf)[i].count == |buf|
    decreases |rest|
  {
    var count := Min(|buf|, |rest|);
    if count > 0 {
      var next := Overlay(buf, rest[..count]);
      PagesShape(rest[count..], next);
      if |Pages(rest[count..], next)| > 0 {
        assert count == |buf|;
      }
    }
  }

  lemma CeilDivFirst(a: nat, n: nat)
    requires 0 < a <= n
    ensures CeilDiv(a, n) == 1
  {
    DivUnique(a + n - 1, n, 1, a - 1);
  }

  lemma CeilDivZero(n: nat)
    requires n > 0
    ensures CeilDiv(0, n) == 0
  {
    DivUnique(n - 1, n, 0, n - 1);
  }

  lemma MulMono(a: int, b: int, n: int)
    requires a <= b && n >= 0
    ensures a * n <= b * n
  {
  }

  /** Division has one quotient: the `q` with `x == q * n + r` and `0 <= r < n`. */
  lemma DivUnique(x: int, n: int, q: int, r: int)
    requires n > 0 && 0 <= r < n && x == q * n + r
    ensures x / n == q
  {
    var d := x / n;
    assert x == d * n + x % n;
    if d > q {
      MulMono(q + 1, d, n);
      assert false;
    } else if d < q {
      MulMono(d + 1, q, n);
      assert false;
    }
  }

  lemma CeilDivStep(a: nat, n: nat)
    requires n > 0
    ensures CeilDiv(a + n, n) == CeilDiv(a, n) + 1
  {
    var b := a + n - 1;
    var q, r := b / n, b % n;
    assert b == q * n + r;
    DivUnique(b + n, n, q + 1, r);
  }

  /** The loop runs `ceil(|rest| / |buf|)` times, and not at all for an empty
      file or a zero-length buffer. */
  lemma {:induction false} PagesCount(rest: seq<byte>, buf: seq<byte>)
    ensures |Pages(rest, buf)| == if |buf| == 0 then 0 else CeilDiv(|rest|, |buf|)
    decreases |rest|
  {
    var n := |buf|;
    var count := Min(n, |rest|);
    if count > 0 {
      var next := Overlay(buf, rest[..count]);
      var tail := rest[count..];
      assert |Pages(rest, buf)| == 1 + |Pages(tail, next)|;
      PagesCount(tail, next);
      if |rest| <= n {
        assert |tail| == 0;
        CeilDivZero(n);
        CeilDivFirst(|rest|, n);
      } else {
        assert |tail| + n == |rest|;
        CeilDivStep(|tail|, n);
      }
    } else if n > 0 {
      CeilDivZero(n);
    }
  }

  /** The last page holds what is left after all the full pages. */
  lemma {:induction false} PagesLast(rest: seq<byte>, buf: seq<byte>)
    requires |Pages(rest, buf)| > 0
    ensures Pages(rest, buf)[|Pages(rest, buf)| - 1].count == |rest| - (|Pages(rest, buf)| - 1) * |buf|
    decreases |rest|
  {
    var n := |buf|;
    var count := Min(n, |rest|);
    var next := Overlay(buf, rest[..count]);
    var tail := Pages(rest[count..], next);
    assert Pages(rest, buf) == [Page(count, next)] + tail;
    if |tail| > 0 {
      PagesLast(rest[count..], next);
      assert count == n && |rest[count..]| == |rest| - n;
      assert Pages(rest, buf)[|Pages(rest, buf)| - 1] == tail[|tail| - 1];
      LastPageArith(|rest|, n, |Pages(rest, buf)|, |tail|, tail[|tail| - 1].count);
    } else {
      assert count == |rest|;
    }
  }

  /** The arithmetic step of `PagesLast`: one more full page in front. */
  lemma LastPageArith(total: nat, n: nat, m: nat, t: nat, c: int)
    requires m == t + 1 && t > 0 && n <= total
    requires c == (total - n) - (t - 1) * n
    ensures c == total - (m - 1) * n
  {
    assert (m - 1) * n == (t - 1) * n + n;
  }

  /** The counts add up to the number of bytes there were to read. With a
      zero-length buffer nothing is read at all. */
  lemma {:induction false} PagesReadTotal(rest: seq<byte>, buf: seq<byte>)
    ensures ReadTotal(Pages(rest, buf)) == if |buf| == 0 then 0 else |rest|
    decreases |rest|
  {
    var count := Min(|buf|, |rest|);
    if count > 0 {
      var next := Overlay(buf, rest[..count]);
      var ps := Pages(rest, buf);
      PagesReadTotal(rest[count..], next);
      assert ps == [Page(count, next)] + Pages(rest[count..], next);
      assert ps[1..] == Pages(rest[count..], next);
    }
  }

  /** The filled prefixes of the buffers, in order, are exactly the bytes
      that were there to read: none dropped, none read twice (unless the
      buffer has length zero, when nothing is read). */
  lemma {:induction false} PagesData(rest: seq<byte>, buf: seq<byte>)
    ensures forall i :: 0 <= i < |Pages(rest, buf)| ==>
      Pages(rest, buf)[i].count <= |Pages(rest, buf)[i].buffer|
    ensures Data(Pages(rest, buf)) == if |buf| == 0 then [] else rest
    decreases |rest|
  {
    PagesShape(rest, buf);
    var count := Min(|buf|, |rest|);
    if count > 0 {
      var next := Overlay(buf, rest[..count]);
      var ps := Pages(rest, buf);
      PagesData(rest[count..], next);
      assert ps == [Page(count, next)] + Pages(rest[count..], next);
      assert ps[1..] == Pages(rest[count..], next);
      assert next[..count] == rest[..count];
      assert rest == rest[..count] + rest[count..];
    }
  }

  /** The compressor is always given the whole buffer: behind the bytes a
      short read filled, it still holds the bytes of the page before, or the
      initial contents of the buffer (zeros, for a file) on the first read. */
  lemma {:induction false} PagesKeepStaleBytes(rest: seq<byte>, buf: seq<byte>)
    ensures forall i :: 0 <= i < |Pages(rest, buf)| ==>
      Pages(rest, buf)[i].count <= |buf| && |Pages(rest, buf)[i].buffer| == |buf|
    ensures forall i :: 0 <= i < |Pages(rest, buf)| ==>
      Pages(rest, buf)[i].buffer[Pages(rest, buf)[i].count..]
        == Before(Pages(rest, buf), buf, i)[Pages(rest, buf)[i].count..]
    decreases |rest|
  {
    PagesShape(rest, buf);
    var count := Min(|buf|, |rest|);
    if count > 0 {
      var next := Overlay(buf, rest[..count]);
      var ps := Pages(rest, buf);
      var tail := Pages(rest[count..], next);
      PagesKeepStaleBytes(rest[count..], next);
      forall i | 0 <= i < |ps|
        ensures ps[i].buffer[ps[i].count..] == Before(ps, buf, i)[ps[i].count..]
      {
        if i > 0 {
          assert ps[i] == tail[i - 1];
          assert Before(ps, buf, i) == Before(tail, next, i - 1);
        }
      }
    }
  }

  /** The run's compressed total exists exactly when `comprPage` succeeds on
      every page. */
  lemma {:induction false} CompressedOk(gzip: Gzip, ps: seq<Page>)
    ensures Compressed(gzip, ps).Ok? <==>
      forall i :: 0 <= i < |ps| ==> ComprPage(gzip, ps[i].buffer).Ok?
    decreases |ps|
  {
    if ps != [] {
      var init := ps[..|ps| - 1];
      CompressedOk(gzip, init);
      assert forall i :: 0 <= i < |init| ==> init[i] == ps[i];
    }
  }

  /** The running total never decreases: after fewer pages it is at most what
      it is after more. */
  lemma {:induction false} CompressedGrows(gzip: Gzip, ps: seq<Page>, k: nat)
    requires k <= |ps| && Compressed(gzip, ps).Ok?
    ensures Compressed(gzip, ps[..k]).Ok?
    ensures Compressed(gzip, ps[..k]).value <= Compressed(gzip, ps).value
    decreases |ps|
  {
    if k < |ps| {
      var init := ps[..|ps| - 1];
      CompressedGrows(gzip, init, k);
      assert init[..k] == ps[..k];
    } else {
      assert ps[..k] == ps;
    }
  }
}
