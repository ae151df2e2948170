/** TarWriter#find_eof (lib/tarwriter.rb:136-171): where append mode
    resumes writing. It reads the file backwards in windows of 20 records,
    starting from the last whole window, and within each window looks at the
    records from the 20th down to the first for a header with magic "ustar"
    and a checksum over its first 500 bytes that matches. The position after
    that header's content is the answer; 0 when no window has one.

    The scan is written for any record test `accept`, so that its lemmas
    hold whatever the test; find_eof's own test is `HeaderLike`. */
module Eof {
  import opened Bytes
  import opened Checksum
  import Octal
  import Header

  /** The checks find_eof makes of one record: "ustar" at bytes 257..261
      and the 500-byte checksum test. */
  predicate HeaderLike(blk: seq<byte>)
  {
    |blk| == 512 && blk[257..262] == Header.USTAR && PrefixValid(blk)
  }

  /** `hdr[124, 12].unpack('A*').first.to_i(8)`. */
  function SizeField(blk: seq<byte>): nat
    requires |blk| == 512
  {
    Octal.Parse(UnpackA(blk[124..136]))
  }

  /** Record k of the file: `buf[512 * i, 512]` of the window read at
      `base`, with k = base / 512 + i. */
  function Rec(file: seq<byte>, k: nat): (r: seq<byte>)
    requires 512 * k + 512 <= |file|
    ensures |r| == 512
  {
    file[512 * k..512 * k + 512]
  }

  /** `19.downto(0)` over window w (bytes 10240 * w up to 10240 * w + 10240),
      from slot i - 1 down: the record number of the first slot accepted. */
  function ScanSlots(file: seq<byte>, accept: seq<byte> -> bool, w: nat, i: nat): (r: Option<nat>)
    requires 10240 * w + 10240 <= |file| && i <= 20
    ensures r.Some? ==> 20 * w <= r.value < 20 * w + i && accept(Rec(file, r.value))
  {
    if i == 0 then None
    else if accept(Rec(file, 20 * w + i - 1)) then Some(20 * w + i - 1)
    else ScanSlots(file, accept, w, i - 1)
  }

  /** The loop over windows, from window w - 1 backwards; `base` of the
      source is 10240 * w, and the loop ends when it reaches 0. */
  function ScanWindows(file: seq<byte>, accept: seq<byte> -> bool, w: nat): (r: Option<nat>)
    requires 10240 * w <= |file|
    ensures r.Some? ==> r.value < 20 * w && accept(Rec(file, r.value))
  {
    if w == 0 then None
    else
      match ScanSlots(file, accept, w - 1, 20)
      case Some(k) => Some(k)
      case None => ScanWindows(file, accept, w - 1)
  }

  /** The position after the entry whose header is record k:
      `size -= 1; size -= size % 512; size += 512` rounds the size up to
      whole records (Ruby's `%` is never negative here). */
  function EntryEnd(file: seq<byte>, k: nat): (r: nat)
    requires 512 * k + 512 <= |file|
    ensures r >= 512 * k + 512 && r % 512 == 0
    ensures r - (512 * k + 512) >= SizeField(Rec(file, k))
    ensures r - (512 * k + 512) < SizeField(Rec(file, k)) + 512
  {
    var n := RoundUp512(SizeField(Rec(file, k)));
    AlignedAfter(k, n);
    512 * k + 512 + n
  }

  /** Where the entry found at record k ends, or 0 when none was found. */
  function EndOf(file: seq<byte>, found: Option<nat>): nat
    requires found.Some? ==> 512 * found.value + 512 <= |file|
  {
    match found
    case None => 0
    case Some(k) => EntryEnd(file, k)
  }

  /** find_eof as written: `base = size - size % 10240`, so only whole
      windows are scanned. What it answers is stated by FindEofIsLastAccepted:
      the end of the entry at the last accepted record of those windows. */
  function FindEof(file: seq<byte>): (r: nat)
    ensures r == 0 || r % 512 == 0
  {
    var found := ScanWindows(file, HeaderLike, |file| / 10240);
    EndOf(file, found)
  }

  // ---------------------------------------------------------------------------
  // The reference: the last acceptable record

  /** The highest record k with lo <= k < n that `accept` takes. */
  function LastAccepted(file: seq<byte>, accept: seq<byte> -> bool, lo: nat, n: nat): (r: Option<nat>)
    requires 512 * n <= |file|
    ensures r.Some? ==> lo <= r.value < n && accept(Rec(file, r.value))
    ensures r.Some? ==> forall j :: r.value < j < n ==> !accept(Rec(file, j))
    ensures r.None? ==> forall j :: lo <= j < n ==> !accept(Rec(file, j))
    decreases n
  {
    if n <= lo then None
    else if accept(Rec(file, n - 1)) then Some(n - 1)
    else LastAccepted(file, accept, lo, n - 1)
  }

  /** The slots of one window, scanned from i - 1 down, are the records of
      that window scanned from the top. */
  lemma {:induction false} ScanSlotsIsLastAccepted(file: seq<byte>, accept: seq<byte> -> bool, w: nat, i: nat)
    requires 10240 * w + 10240 <= |file| && i <= 20
    ensures ScanSlots(file, accept, w, i) == LastAccepted(file, accept, 20 * w, 20 * w + i)
  {
    if i > 0 {
      ScanSlotsIsLastAccepted(file, accept, w, i - 1);
    }
  }

  /** Looking first at the records in [m, n), then below m, is looking at
      all records below n. */
  lemma {:induction false} LastAcceptedSplit(file: seq<byte>, accept: seq<byte> -> bool, m: nat, n: nat)
    requires m <= n && 512 * n <= |file|
    ensures LastAccepted(file, accept, 0, n) ==
      if LastAccepted(file, accept, m, n).Some? then LastAccepted(file, accept, m, n) else LastAccepted(file, accept, 0, m)
    decreases n
  {
    if n > m {
      LastAcceptedSplit(file, accept, m, n - 1);
    }
  }

  /** The window loop is the reference over the records of windows 0..w-1. */
  lemma {:induction false} ScanWindowsIsLastAccepted(file: seq<byte>, accept: seq<byte> -> bool, w: nat)
    requires 10240 * w <= |file|
    ensures ScanWindows(file, accept, w) == LastAccepted(file, accept, 0, 20 * w)
  {
    if w > 0 {
      var v := w - 1;
      assert 20 * v + 20 == 20 * w && 10240 * v + 10240 == 10240 * w;
      ScanSlotsIsLastAccepted(file, accept, v, 20);
      LastAcceptedSplit(file, accept, 20 * v, 20 * w);
      ScanWindowsIsLastAccepted(file, accept, v);
    }
  }

  /** find_eof, stated without windows: the end of the entry whose header is
      the last record find_eof accepts among the records that lie in whole
      windows, or 0 when there is none. */
  lemma FindEofIsLastAccepted(file: seq<byte>)
    ensures 512 * (20 * (|file| / 10240)) <= |file|
    ensures FindEof(file) == EndOf(file, LastAccepted(file, HeaderLike, 0, 20 * (|file| / 10240)))
  {
    ScanWindowsIsLastAccepted(file, HeaderLike, |file| / 10240);
  }

  /** A file shorter than one window holds no whole window: find_eof
      answers 0 (the `base.zero?` exit of its first pass). */
  lemma FindEofShort(file: seq<byte>)
    requires |file| < 10240
    ensures FindEof(file) == 0
  {
    assert |file| / 10240 == 0;
  }

  /** Records within `file` read the same in any extension of it. */
  lemma {:induction false} LastAcceptedPrefix(file: seq<byte>, tail: seq<byte>, accept: seq<byte> -> bool, n: nat)
    requires 512 * n <= |file|
    ensures LastAccepted(file + tail, accept, 0, n) == LastAccepted(file, accept, 0, n)
    decreases n
  {
    if n > 0 {
      assert Rec(file + tail, n - 1) == Rec(file, n - 1);
      LastAcceptedPrefix(file, tail, accept, n - 1);
    }
  }

  lemma EndOfPrefix(file: seq<byte>, tail: seq<byte>, found: Option<nat>)
    requires found.Some? ==> 512 * found.value + 512 <= |file|
    ensures EndOf(file + tail, found) == EndOf(file, found)
  {
    if found.Some? {
      assert Rec(file + tail, found.value) == Rec(file, found.value);
    }
  }

  /** Nothing past the last whole window is looked at: whatever follows a
      file of whole windows, as long as it is shorter than a window, find_eof
      answers as for the file alone. */
  lemma FindEofIgnoresPartialWindow(file: seq<byte>, tail: seq<byte>)
    requires |file| % 10240 == 0 && |tail| < 10240
    ensures FindEof(file + tail) == FindEof(file)
  {
    var f := file + tail;
    var w := |file| / 10240;
    assert |f| / 10240 == w;
    ScanWindowsIsLastAccepted(f, HeaderLike, w);
    ScanWindowsIsLastAccepted(file, HeaderLike, w);
    LastAcceptedPrefix(file, tail, HeaderLike, 20 * w);
    EndOfPrefix(file, tail, LastAccepted(file, HeaderLike, 0, 20 * w));
  }

  // ---------------------------------------------------------------------------
  // The corrected search

  /** find_eof over every complete record of the file, not only those in
      whole windows: the end of the last entry whose header passes the test. */
  function FindEofAll(file: seq<byte>): (r: nat)
    ensures r == 0 || r % 512 == 0
  {
    EndOf(file, LastAccepted(file, HeaderLike, 0, |file| / 512))
  }

  /** The reference finds record k when k is accepted and nothing above it
      (below n) is. */
  lemma {:induction false} LastAcceptedIs(file: seq<byte>, accept: seq<byte> -> bool, k: nat, n: nat)
    requires k < n && 512 * n <= |file| && accept(Rec(file, k))
    requires forall j :: k < j < n ==> !accept(Rec(file, j))
    ensures LastAccepted(file, accept, 0, n) == Some(k)
    decreases n
  {
    if n - 1 > k {
      LastAcceptedIs(file, accept, k, n - 1);
    }
  }

  /** On a file of whole windows the corrected search is find_eof. */
  lemma FindEofAllAgrees(file: seq<byte>)
    requires |file| % 10240 == 0
    ensures FindEofAll(file) == FindEof(file)
  {
    assert |file| / 512 == 20 * (|file| / 10240);
    FindEofIsLastAccepted(file);
  }

  /** The reference over a file laid out as `before`, an accepted record
      `h`, then whole records none of which is accepted, finds `h`. */
  lemma LastAcceptedAfter(before: seq<byte>, h: seq<byte>, after: seq<byte>, accept: seq<byte> -> bool)
    requires |before| % 512 == 0 && |after| % 512 == 0 && |h| == 512 && accept(h)
    requires forall j :: 0 <= j < |after| / 512 ==> !accept(after[512 * j..512 * j + 512])
    ensures var file := before + h + after;
      512 * (|file| / 512) == |file| && 512 * (|before| / 512) + 512 <= |file| &&
      Rec(file, |before| / 512) == h &&
      LastAccepted(file, accept, 0, |file| / 512) == Some(|before| / 512)
  {
    var file := before + h + after;
    var k := |before| / 512;
    var n := |file| / 512;
    assert n == k + 1 + |after| / 512;
    assert Rec(file, k) == h;
    forall j | k < j < n
      ensures !accept(Rec(file, j))
    {
      assert Rec(file, j) == after[512 * (j - k - 1)..512 * (j - k - 1) + 512];
    }
    LastAcceptedIs(file, accept, k, n);
  }

  /** What append mode is meant to do: after a header `h` that passes the
      test and any whole records none of which does, writing resumes after
      `h`'s content. */
  lemma FindEofAllFindsLastHeader(before: seq<byte>, h: seq<byte>, after: seq<byte>)
    requires |before| % 512 == 0 && |after| % 512 == 0 && HeaderLike(h)
    requires forall j :: 0 <= j < |after| / 512 ==> !HeaderLike(after[512 * j..512 * j + 512])
    ensures FindEofAll(before + h + after) == |before| + 512 + RoundUp512(SizeField(h))
  {
    LastAcceptedAfter(before, h, after, HeaderLike);
  }

  /** find_eof as written overlooks such a header when it lies past the last
      whole window: it answers as if the header and what follows were not
      there, while the corrected search finds the header. */
  lemma FindEofMissesLastHeader(file: seq<byte>, h: seq<byte>, after: seq<byte>)
    requires |file| % 10240 == 0 && |after| % 512 == 0 && 512 + |after| < 10240 && HeaderLike(h)
    requires forall j :: 0 <= j < |after| / 512 ==> !HeaderLike(after[512 * j..512 * j + 512])
    ensures FindEof(file + h + after) == FindEof(file)
    ensures FindEofAll(file + h + after) == |file| + 512 + RoundUp512(SizeField(h))
  {
    var tail := h + after;
    assert |tail| == 512 + |after|;
    WindowAligned(|file|);
    SameConcat(file, h, after);
    FindEofIgnoresPartialWindow(file, tail);
    FindEofAllFindsLastHeader(file, h, after);
  }

  /** A length of whole windows is a length of whole records. */
  lemma WindowAligned(n: nat)
    requires n % 10240 == 0
    ensures n % 512 == 0
  {
    var q := n / 10240;
    assert n == 512 * (20 * q);
    MultipleOf512(20 * q);
  }

  lemma SameConcat(a: seq<byte>, b: seq<byte>, c: seq<byte>)
    ensures a + b + c == a + (b + c)
  {
  }

  /** No record of NUL bytes passes the test. */
  lemma ZeroRecordNotHeader(r: seq<byte>)
    requires |r| == 512 && AllZero(r)
    ensures !HeaderLike(r)
  {
    assert r[257..262][0] == r[257] == NUL;
  }

  lemma ZerosNotHeader(n: nat)
    ensures forall j :: 0 <= j < n / 512 ==> !HeaderLike(Zeros(n)[512 * j..512 * j + 512])
  {
    forall j | 0 <= j < n / 512
      ensures !HeaderLike(Zeros(n)[512 * j..512 * j + 512])
    {
      ZeroRecordNotHeader(Zeros(n)[512 * j..512 * j + 512]);
    }
  }

  /** A file of NUL bytes has no entry: find_eof answers 0. */
  lemma FindEofZeros(n: nat)
    ensures FindEof(Zeros(n)) == 0
  {
    var w := n / 10240;
    ScanWindowsIsLastAccepted(Zeros(n), HeaderLike, w);
    ZerosNotHeader(n);
    NoneAccepted(Zeros(n), HeaderLike, 20 * w);
  }

  /** When no record below n is accepted, the reference finds nothing. */
  lemma {:induction false} NoneAccepted(file: seq<byte>, accept: seq<byte> -> bool, n: nat)
    requires 512 * n <= |file|
    requires forall j :: 0 <= j < n ==> !accept(file[512 * j..512 * j + 512])
    ensures LastAccepted(file, accept, 0, n).None?
  {
    if n > 0 {
      assert !accept(Rec(file, n - 1));
      NoneAccepted(file, accept, n - 1);
    }
  }

  /** A 500-byte header padded to a record, with the magic in place and
      a sound 500-byte checksum, passes the test and reads its size back. */
  lemma PaddedHeaderLike(h: seq<byte>, size: nat)
    requires |h| == 500 && h[257..263] == Header.USTAR + [NUL] && PrefixValid(h + Zeros(12))
    requires h[124..136] == Header.NumberField(size) && size < Octal.Pow8(12)
    ensures HeaderLike(h + Zeros(12)) && SizeField(h + Zeros(12)) == size
  {
    var blk := h + Zeros(12);
    PaddedMagic(h, blk);
    PaddedSize(h, blk, size);
  }

  lemma PaddedMagic(h: seq<byte>, blk: seq<byte>)
    requires |h| == 500 && h[257..263] == Header.USTAR + [NUL] && blk == h + Zeros(12)
    ensures |blk| == 512 && blk[257..262] == Header.USTAR
  {
    assert blk[257..262] == h[257..263][..5];
  }

  lemma PaddedSize(h: seq<byte>, blk: seq<byte>, size: nat)
    requires |h| == 500 && h[124..136] == Header.NumberField(size) && size < Octal.Pow8(12)
    requires blk == h + Zeros(12)
    ensures |blk| == 512 && SizeField(blk) == size
  {
    assert blk[124..136] == h[124..136];
    Header.NumberFieldParse(size);
  }

  /** Every header add writes passes find_eof's test and reads its size
      back. */
  lemma WrittenHeaderLike(name: seq<byte>, size: nat, time: nat)
    requires |name| < 100 && size < Octal.Pow8(12)
    ensures Header.Checksummed(name, size, time).Ok?
    ensures var r := Header.Checksummed(name, size, time).value + Zeros(12);
      HeaderLike(r) && SizeField(r) == size
  {
    Header.WrittenFields(name, size, time);
    PaddedHeaderLike(Header.Checksummed(name, size, time).value, size);
  }

  /** Any header add writes, after a whole window of NULs and before one
      record of NULs: find_eof answers 0, so appending would overwrite the
      entry, while the entry ends after the header's padded content. */
  lemma MissedWrittenHeader(name: seq<byte>, size: nat, time: nat)
    requires |name| < 100 && size < Octal.Pow8(12)
    ensures Header.Checksummed(name, size, time).Ok?
    ensures var h := Header.Checksummed(name, size, time).value + Zeros(12);
      FindEof(Zeros(10240) + h + Zeros(512)) == 0 &&
      FindEofAll(Zeros(10240) + h + Zeros(512)) == 10752 + RoundUp512(size)
  {
    WrittenHeaderLike(name, size, time);
    MissedAfterZeros(Header.Checksummed(name, size, time).value + Zeros(12));
  }

  /** The header add writes for an empty file named "a" at time 0, padded
      to a record, after a whole window of NULs and before one record of
      NULs: find_eof answers 0, while the entry ends at 10752. */
  lemma MissedHeaderExample()
    ensures Header.Checksummed([97], 0, 0).Ok?
    ensures var h := Header.Checksummed([97], 0, 0).value + Zeros(12);
      FindEof(Zeros(10240) + h + Zeros(512)) == 0 &&
      FindEofAll(Zeros(10240) + h + Zeros(512)) == 10752
  {
    Octal.Pow8Positive(12);
    MissedWrittenHeader([97], 0, 0);
    assert RoundUp512(0) == 0;
  }

  /** A header after a whole window of NULs and before one record of NULs
      is missed by find_eof and found by the corrected search. */
  lemma MissedAfterZeros(h: seq<byte>)
    requires HeaderLike(h)
    ensures FindEof(Zeros(10240) + h + Zeros(512)) == 0
    ensures FindEofAll(Zeros(10240) + h + Zeros(512)) == 10752 + RoundUp512(SizeField(h))
  {
    var z := Zeros(10240);
    assert |z| % 10240 == 0;
    ZerosNotHeader(512);
    FindEofMissesLastHeader(z, h, Zeros(512));
    FindEofZeros(10240);
  }
}
