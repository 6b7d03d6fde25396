/** The backing file, as bytes: positional reads and writes of one page at a time. */
module PageFile {
  import opened Config

  type Bytes = seq<byte>
  type Page = p: Bytes | |p| == PAGE_SIZE witness seq(PAGE_SIZE, i => 0)

  function Min(a: int, b: int): int { if a <= b then a else b }
  function Max(a: int, b: int): int { if a <= b then b else a }

  predicate Aligned(off: int) { off % PAGE_SIZE == 0 }

  /** pread: the bytes of the file in [off, off + PAGE_SIZE), fewer at the end of the file. */
  function Pread(file: Bytes, off: nat): (r: Bytes)
    ensures |r| <= PAGE_SIZE
  {
    if off >= |file| then [] else file[off..Min(off + PAGE_SIZE, |file|)]
  }

  /** A short read filled up with zero bytes. */
  function ZeroPad(data: Bytes): Page
    requires |data| <= PAGE_SIZE
  {
    data + seq(PAGE_SIZE - |data|, i => 0)
  }

  /** The page at `off` as a reader sees it: zeros from the end of the file on. */
  function PageAt(file: Bytes, off: nat): Page {
    seq(PAGE_SIZE, i requires 0 <= i < PAGE_SIZE => if off + i < |file| then file[off + i] else 0)
  }

  /** pwrite: overwrites in place, and extends the file, a gap reading as zeros. */
  function Pwrite(file: Bytes, off: nat, data: Bytes): Bytes {
    if data == [] then file
    else seq(Max(|file|, off + |data|),
             i requires 0 <= i < Max(|file|, off + |data|) =>
               if off <= i < off + |data| then data[i - off]
               else if i < |file| then file[i] else 0)
  }

  lemma PaddedReadIsPageAt(file: Bytes, off: nat)
    ensures ZeroPad(Pread(file, off)) == PageAt(file, off)
  {
    var r := ZeroPad(Pread(file, off));
    assert forall i :: 0 <= i < PAGE_SIZE ==> r[i] == PageAt(file, off)[i];
  }

  /** Writing a page changes that page and no other. */
  lemma PageAtAfterPwrite(file: Bytes, off: nat, page: Page, q: nat)
    requires Aligned(off) && Aligned(q)
    ensures PageAt(Pwrite(file, off, page), q) == if q == off then page else PageAt(file, q)
  {
    var file' := Pwrite(file, off, page);
    if q == off {
      assert forall i :: 0 <= i < PAGE_SIZE ==> PageAt(file', q)[i] == page[i];
    } else {
      assert q + PAGE_SIZE <= off || off + PAGE_SIZE <= q;
      assert forall i :: 0 <= i < PAGE_SIZE ==> PageAt(file', q)[i] == PageAt(file, q)[i];
    }
  }

  /** Writing up to a page's worth of bytes at a page changes no other page. */
  lemma PageAtAfterShortPwrite(file: Bytes, off: nat, data: Bytes, q: nat)
    requires Aligned(off) && Aligned(q) && q != off && |data| <= PAGE_SIZE
    ensures PageAt(Pwrite(file, off, data), q) == PageAt(file, q)
  {
    var file' := Pwrite(file, off, data);
    assert q + PAGE_SIZE <= off || off + PAGE_SIZE <= q;
    assert forall i :: 0 <= i < PAGE_SIZE ==> PageAt(file', q)[i] == PageAt(file, q)[i];
  }

  /** Two files of one length that show the same pages are the same file. */
  lemma SamePagesSameFile(f: Bytes, g: Bytes)
    requires |f| == |g|
    requires forall q: nat :: Aligned(q) ==> PageAt(f, q) == PageAt(g, q)
    ensures f == g
  {
    forall i | 0 <= i < |f|
      ensures f[i] == g[i]
    {
      var q := i - i % PAGE_SIZE;
      assert Aligned(q);
      assert PageAt(f, q)[i - q] == PageAt(g, q)[i - q];
    }
  }
}
