/** TarReader (lib/tarreader.rb): walking an archive one header record at a
    time. The file is the byte sequence `data`; positions are offsets in it. */
module Reader {
  import opened Bytes
  import opened Errors
  import opened Checksum
  import Octal
  import Header

  /** The fields the reader decodes only when the magic says ustar. */
  datatype UstarFields = UstarFields(uname: seq<byte>, gname: seq<byte>, devmajor: nat, devminor: nat, prefix: seq<byte>)

  /** TarReader::Entry: a decoded header, where its content starts (`pos`)
      and how many bytes the content occupies in the archive (`blocksize`). */
  datatype Entry = Entry(
    name: seq<byte>, mode: nat, uid: nat, gid: nat, size: nat, mtime: nat,
    typeflag: byte, linkname: seq<byte>, magic: Option<seq<byte>>, ustar: Option<UstarFields>,
    pos: nat, blocksize: nat)

  /** `/^ustar/ === magic`: "ustar" at the start of the six-byte field, or at
      the start of a line within it, since `^` matches after every newline. */
  predicate UstarMagic(m: seq<byte>)
  {
    (|m| >= 5 && m[..5] == Header.USTAR) || (|m| >= 6 && m[0] == LF && m[1..6] == Header.USTAR)
  }

  /** "ustar" starts at offset k of m, and k is the start of a line. */
  predicate UstarLineAt(m: seq<byte>, k: int)
  {
    0 <= k && k + 5 <= |m| && (k == 0 || m[k - 1] == LF) && m[k..k + 5] == Header.USTAR
  }

  /** `/^ustar/` on the six-byte field: `^` matches at the start and after
      every newline, so the two cases of UstarMagic are all there are. */
  lemma UstarMagicLines(m: seq<byte>)
    requires |m| <= 6
    ensures UstarMagic(m) <==> exists k :: UstarLineAt(m, k)
  {
    if UstarMagic(m) {
      if |m| >= 5 && m[..5] == Header.USTAR {
        assert UstarLineAt(m, 0);
      } else {
        assert UstarLineAt(m, 1);
      }
    }
    if exists k :: UstarLineAt(m, k) {
      var k :| UstarLineAt(m, k);
      assert k == 0 || k == 1;
    }
  }

  /** Whether the record's magic, `buf[257, 6]`, is there and matches. */
  predicate UstarAt(buf: seq<byte>)
  {
    var magic := Slice(buf, 257, 6);
    magic.Some? && UstarMagic(magic.value)
  }

  /** TarReader::Entry#initialize once a record `buf` is in hand; `pos` is the
      file position after reading it. A record shorter than 148 bytes fails
      at `nil.to_i(8)`, one shorter than 157 at `nil.unpack` for the linkname,
      and a ustar one shorter than 345 on one of the ustar fields; those
      become ShortRecord. The checksum test comes between the first two. */
  function Decode(buf: seq<byte>, pos: nat): (r: Result<Entry>)
    ensures r.Ok? <==> |buf| >= 157 && ReaderValid(buf) && (UstarAt(buf) ==> |buf| >= 345)
    ensures r.Raise? ==> r.error == ShortRecord || r.error == ChecksumMismatch
    ensures r.Raise? ==> (r.error == ChecksumMismatch <==> |buf| >= CHKSUM_OFFSET && !ReaderValid(buf))
    ensures r.Ok? ==> r.value.pos == pos && r.value.size == Octal.Parse(buf[124..136])
    ensures r.Ok? ==> r.value.blocksize % RECORD == 0 && r.value.size <= r.value.blocksize < r.value.size + RECORD
    ensures r.Ok? ==> (r.value.ustar.Some? <==> UstarAt(buf))
  {
    if |buf| < CHKSUM_OFFSET then Raise(ShortRecord)
    else if !ReaderValid(buf) then Raise(ChecksumMismatch)
    else if |buf| < 157 then Raise(ShortRecord)
    else if UstarAt(buf) && |buf| < 345 then Raise(ShortRecord)
    else Ok(Fields(buf, pos))
  }

  /** The entry's fields, from a record long enough for all of them. */
  function Fields(buf: seq<byte>, pos: nat): (e: Entry)
    requires |buf| >= 157 && (UstarAt(buf) ==> |buf| >= 345)
    ensures e.pos == pos && e.size == Octal.Parse(buf[124..136])
    ensures e.blocksize % RECORD == 0 && e.size <= e.blocksize < e.size + RECORD
    ensures e.name == UnpackA(buf[..100]) && e.typeflag == buf[156]
    ensures e.mode == Octal.Parse(buf[100..108]) && e.uid == Octal.Parse(buf[108..116])
    ensures e.gid == Octal.Parse(buf[116..124]) && e.mtime == Octal.Parse(buf[136..148])
    ensures e.linkname == UnpackA(buf[157..Min(257, |buf|)]) && e.magic == Slice(buf, 257, 6)
    ensures e.ustar.Some? <==> UstarAt(buf)
    ensures e.ustar.Some? ==>
      e.ustar.value.uname == UnpackA(buf[265..297]) && e.ustar.value.gname == UnpackA(buf[297..329]) &&
      e.ustar.value.devmajor == Octal.Parse(buf[329..337]) && e.ustar.value.devminor == Octal.Parse(buf[337..345]) &&
      e.ustar.value.prefix == UnpackA(buf[345..Min(500, |buf|)])
  {
    var size := Octal.Parse(buf[124..136]);
    Entry(
      UnpackA(buf[..100]),
      Octal.Parse(buf[100..108]),
      Octal.Parse(buf[108..116]),
      Octal.Parse(buf[116..124]),
      size,
      Octal.Parse(buf[136..148]),
      buf[156],
      UnpackA(buf[157..Min(257, |buf|)]),
      Slice(buf, 257, 6),
      if UstarAt(buf) then
        Some(UstarFields(UnpackA(buf[265..297]), UnpackA(buf[297..329]),
          Octal.Parse(buf[329..337]), Octal.Parse(buf[337..345]), UnpackA(buf[345..Min(500, |buf|)])))
      else None,
      pos,
      RoundUp512(size))
  }

  /** The record `io.read(512)` returns at position p < |data|. */
  function Record(data: seq<byte>, p: nat): (r: seq<byte>)
    requires p < |data|
    ensures 0 < |r| <= RECORD && p + |r| <= |data| && r == data[p..p + |r|]
    ensures |r| < RECORD ==> p + |r| == |data|
    ensures ReadAt(data, p, RECORD) == Some(r)
  {
    data[p..Min(p + RECORD, |data|)]
  }

  datatype Step = Eof | Got(entry: Entry, next: nat)

  /** Where Entry.new finds its header from position p: no record at all
      (`io.read` returns nil), the end-of-archive mark, or the record at h. */
  datatype Found = NoRecord | EndMark | HeaderAt(h: nat)

  /** The record read at p, unless it is blank; after one blank record, the
      next, unless it too is blank or missing: a blank record followed by
      end of file or by another blank record is the end of the archive. */
  function Locate(data: seq<byte>, p: nat): (f: Found)
    ensures f == NoRecord <==> p >= |data|
    ensures f.HeaderAt? ==> p <= f.h < |data| && !Blank(Record(data, f.h))
  {
    if p >= |data| then NoRecord
    else
      var buf := Record(data, p);
      if !Blank(buf) then HeaderAt(p)
      else if p + |buf| >= |data| then EndMark
      else if Blank(Record(data, p + |buf|)) then EndMark
      else HeaderAt(p + |buf|)
  }

  /** TarReader::Entry.new at position p: nil where a header is expected fails
      (`nil.unpack`); otherwise the located record is decoded. */
  function ReadEntry(data: seq<byte>, p: nat): (r: Result<Step>)
    ensures r == Raise(NilRecord) <==> p >= |data|
    ensures r.Ok? && r.value.Got? ==>
      p < r.value.entry.pos <= |data| && r.value.next == r.value.entry.pos + r.value.entry.blocksize
  {
    match Locate(data, p)
    case NoRecord => Raise(NilRecord)
    case EndMark => Ok(Eof)
    case HeaderAt(h) => StepAt(data, h)
  }

  /** The end of the archive as the reader sees it: a blank record at p,
      followed by end of file or by a second blank record. */
  lemma ReadEntryEof(data: seq<byte>, p: nat)
    ensures ReadEntry(data, p) == Ok(Eof) <==> (p < |data| && Blank(Record(data, p)) &&
      (p + |Record(data, p)| >= |data| || Blank(Record(data, p + |Record(data, p)|))))
  {
  }

  function StepAt(data: seq<byte>, h: nat): Result<Step>
    requires h < |data|
  {
    DecodeStep(Record(data, h), h + |Record(data, h)|)
  }

  lemma ReadEntryAt(data: seq<byte>, p: nat, h: nat)
    requires Locate(data, p) == HeaderAt(h)
    ensures ReadEntry(data, p) == StepAt(data, h)
  {
  }

  /** Which record an entry comes from: the one at p, or the one after it
      when the record at p is blank; the entry's content starts right after
      that header record. */
  lemma ReadEntryHeader(data: seq<byte>, p: nat)
    requires ReadEntry(data, p).Ok? && ReadEntry(data, p).value.Got?
    ensures p < |data|
    ensures !Blank(Record(data, p)) ==> DecodedAt(data, p, ReadEntry(data, p).value.entry)
    ensures Blank(Record(data, p)) ==>
      p + RECORD < |data| && DecodedAt(data, p + RECORD, ReadEntry(data, p).value.entry)
  {
    var f := Locate(data, p);
    ReadEntryAt(data, p, f.h);
    StepAtDecoded(data, f.h);
    if Blank(Record(data, p)) {
      assert f.h == p + |Record(data, p)|;
    }
  }

  lemma StepAtDecoded(data: seq<byte>, h: nat)
    requires h < |data| && StepAt(data, h).Ok?
    ensures StepAt(data, h).value.Got? && DecodedAt(data, h, StepAt(data, h).value.entry)
  {
  }

  /** Entry e is the record at h decoded, its content starting after it. */
  predicate DecodedAt(data: seq<byte>, h: nat, e: Entry)
  {
    h < |data| && e.pos == h + |Record(data, h)| && Decode(Record(data, h), e.pos) == Ok(e)
  }

  /** Decode a record and step past its content: `@io.pos += @blocksize`. */
  function DecodeStep(buf: seq<byte>, pos: nat): (r: Result<Step>)
    ensures r.Raise? <==> Decode(buf, pos).Raise?
    ensures r.Raise? ==> r.error != NilRecord
    ensures r.Ok? ==> r.value.Got? && r.value.entry == Decode(buf, pos).value
    ensures r.Ok? ==> r.value.next == pos + r.value.entry.blocksize
  {
    var e :- Decode(buf, pos);
    Ok(Got(e, e.pos + e.blocksize))
  }

  /** TarReader::Entry#read: the content, read from `pos` (nil when it lies
      at or past the end of file and is not empty), and the file position
      afterwards, `pos + blocksize`. */
  function EntryRead(data: seq<byte>, e: Entry): (r: (Option<seq<byte>>, nat))
    ensures r.1 == e.pos + e.blocksize
    ensures e.pos + e.size <= |data| ==> r.0 == Some(data[e.pos..e.pos + e.size])
    ensures e.size > 0 && e.pos >= |data| ==> r.0 == None
  {
    (ReadAt(data, e.pos, e.size), e.pos + e.blocksize)
  }

  /** Reading an entry's content leaves the file where the next header is,
      so each_entry's walk does not depend on whether the block read it. */
  lemma ReadKeepsWalk(data: seq<byte>, p: nat)
    requires ReadEntry(data, p).Ok? && ReadEntry(data, p).value.Got?
    ensures EntryRead(data, ReadEntry(data, p).value.entry).1 == ReadEntry(data, p).value.next
  {
  }

  datatype Outcome = Ended | Failed(error: Failure)

  /** What each_entry yields, and how it stops. */
  datatype Listing = Listing(entries: seq<Entry>, outcome: Outcome)

  /** Where the walk stands after yielding `es` from p: past the last
      entry's content, or still at p. */
  function After(es: seq<Entry>, p: nat): nat
  {
    if |es| == 0 then p else es[|es| - 1].pos + es[|es| - 1].blocksize
  }

  /** TarReader#each_entry from position p: `gethdr` until Entry.new throws
      the end-of-archive mark, an exception ending the walk. */
  function EachEntry(data: seq<byte>, p: nat): (l: Listing)
    ensures l.outcome == Ended <==> ReadEntry(data, After(l.entries, p)) == Ok(Eof)
    ensures l.outcome.Failed? ==> ReadEntry(data, After(l.entries, p)) == Raise(l.outcome.error)
    decreases if p < |data| then |data| - p else 0
  {
    var step := ReadEntry(data, p);
    if step.Raise? then Listing([], Failed(step.error))
    else if step.value.Eof? then Listing([], Ended)
    else
      var e := step.value.entry;
      var rest := EachEntry(data, step.value.next);
      AfterCons(e, rest.entries, p, step.value.next);
      Listing([e] + rest.entries, rest.outcome)
  }

  /** Each entry each_entry yields is the one Entry.new reads where the walk
      stands after the entries before it. */
  lemma {:induction false} EachEntryChain(data: seq<byte>, p: nat, i: nat)
    requires i < |EachEntry(data, p).entries|
    ensures ReadEntry(data, After(EachEntry(data, p).entries[..i], p)) ==
      Ok(Got(EachEntry(data, p).entries[i], After(EachEntry(data, p).entries[..i + 1], p)))
    decreases i, 1
  {
    if i == 0 {
      ChainHead(data, p);
    } else {
      ChainTail(data, p, i);
    }
  }

  lemma ChainHead(data: seq<byte>, p: nat)
    requires 0 < |EachEntry(data, p).entries|
    ensures ReadEntry(data, After(EachEntry(data, p).entries[..0], p)) ==
      Ok(Got(EachEntry(data, p).entries[0], After(EachEntry(data, p).entries[..1], p)))
  {
    var step := ReadEntry(data, p);
    assert step.Ok? && step.value.Got?;
    var e, next := step.value.entry, step.value.next;
    EachEntryStep(data, p, e, next);
    ChainFirst(e, EachEntry(data, p).entries, p, next);
  }

  lemma {:induction false} ChainTail(data: seq<byte>, p: nat, i: nat)
    requires 0 < i < |EachEntry(data, p).entries|
    ensures ReadEntry(data, After(EachEntry(data, p).entries[..i], p)) ==
      Ok(Got(EachEntry(data, p).entries[i], After(EachEntry(data, p).entries[..i + 1], p)))
    decreases i, 0
  {
    var step := ReadEntry(data, p);
    assert step.Ok? && step.value.Got?;
    var e, next := step.value.entry, step.value.next;
    EachEntryStep(data, p, e, next);
    EachEntryChain(data, next, i - 1);
    ChainLater(e, EachEntry(data, p).entries, EachEntry(data, next).entries, p, next, i);
  }

  lemma ChainFirst(e: Entry, es: seq<Entry>, p: nat, next: nat)
    requires next == e.pos + e.blocksize && |es| > 0 && es[0] == e
    ensures After(es[..0], p) == p && After(es[..1], p) == next
  {
    assert es[..1] == [e];
  }

  lemma ChainLater(e: Entry, es: seq<Entry>, rest: seq<Entry>, p: nat, next: nat, i: nat)
    requires next == e.pos + e.blocksize && es == [e] + rest && 0 < i <= |rest|
    ensures es[i] == rest[i - 1]
    ensures After(es[..i], p) == After(rest[..i - 1], next)
    ensures After(es[..i + 1], p) == After(rest[..i], next)
  {
    assert es[..i] == [e] + rest[..i - 1];
    assert es[..i + 1] == [e] + rest[..i];
    AfterCons(e, rest[..i - 1], p, next);
    AfterCons(e, rest[..i], p, next);
  }

  /** Yielding e first moves the walk to where e's content ends. */
  lemma AfterCons(e: Entry, es: seq<Entry>, p: nat, next: nat)
    requires next == e.pos + e.blocksize
    ensures After([e] + es, p) == After(es, next)
  {
    if |es| > 0 {
      assert ([e] + es)[|es|] == es[|es| - 1];
    }
  }

  /** Entries at strictly increasing positions, all in (p, end]. */
  predicate Advancing(es: seq<Entry>, p: nat, end: nat)
  {
    (forall i :: 0 <= i < |es| ==> p < es[i].pos <= end) &&
    (forall i, j :: 0 <= i < j < |es| ==> es[i].pos < es[j].pos)
  }

  /** each_entry yields entries at increasing positions, all after p and
      within the file. */
  lemma {:induction false} EachEntryAdvances(data: seq<byte>, p: nat)
    ensures Advancing(EachEntry(data, p).entries, p, |data|)
    decreases if p < |data| then |data| - p else 0
  {
    var step := ReadEntry(data, p);
    if step.Ok? && step.value.Got? {
      var next := step.value.next;
      EachEntryAdvances(data, next);
      var e := step.value.entry;
      EachEntryStep(data, p, e, next);
      ConsAdvancing(e, EachEntry(data, next).entries, p, next, |data|);
    }
  }

  /** One entry read: it comes first, the rest is each_entry from `next`. */
  lemma EachEntryStep(data: seq<byte>, p: nat, e: Entry, next: nat)
    requires ReadEntry(data, p) == Ok(Got(e, next))
    ensures p < e.pos <= |data| && e.pos <= next
    ensures EachEntry(data, p).entries == [e] + EachEntry(data, next).entries
  {
  }

  lemma ConsAdvancing(e: Entry, rest: seq<Entry>, p: nat, next: nat, end: nat)
    requires p < e.pos <= end && e.pos <= next && Advancing(rest, next, end)
    ensures Advancing([e] + rest, p, end)
  {
    var es := [e] + rest;
    forall i | 0 < i < |es|
      ensures es[i] == rest[i - 1]
    {
    }
  }

  /** TarReader#pos=: move to `ipos` when the record there passes the
      checksum test, otherwise stay at `origpos`. A negative position is
      refused by the seek; at end of file, or on a record too short for the
      checksum field, the test itself fails. */
  function SetPos(data: seq<byte>, origpos: nat, ipos: int): (r: Result<nat>)
    ensures r.Raise? ==> r.error == (if ipos < 0 then InvalidPosition else if ipos >= |data| then NilRecord else ShortRecord)
    ensures r.Ok? <==> 0 <= ipos < |data| && |Record(data, ipos)| >= CHKSUM_OFFSET
    ensures r.Ok? ==> (r.value == ipos <==> ReaderValid(Record(data, ipos)) || ipos == origpos)
    ensures r.Ok? ==> (r.value == ipos || r.value == origpos)
  {
    if ipos < 0 then Raise(InvalidPosition)
    else if ipos >= |data| then Raise(NilRecord)
    else
      var buf := Record(data, ipos);
      if |buf| < CHKSUM_OFFSET then Raise(ShortRecord)
      else if ReaderValid(buf) then Ok(ipos)
      else Ok(origpos)
  }

  /** `pos=` and the walk agree: once `pos=` has moved to a new position,
      the next Entry.new takes its header from the record there, which
      cannot be mistaken for the end of the archive nor fail the checksum. */
  lemma SetPosThenRead(data: seq<byte>, origpos: nat, ipos: int)
    requires SetPos(data, origpos, ipos) == Ok(ipos) && ipos != origpos
    ensures 0 <= ipos < |data| && Locate(data, ipos) == HeaderAt(ipos)
    ensures ReadEntry(data, ipos) != Ok(Eof) && ReadEntry(data, ipos) != Raise(ChecksumMismatch)
    ensures ReadEntry(data, ipos).Ok? ==> DecodedAt(data, ipos, ReadEntry(data, ipos).value.entry)
  {
    var buf := Record(data, ipos);
    if Blank(buf) {
      BlankNotValid(buf);
    }
    ReadEntryAt(data, ipos, ipos);
    if StepAt(data, ipos).Ok? {
      StepAtDecoded(data, ipos);
    }
  }

  // ---------------------------------------------------------------------------
  // Owner names and the symbolic mode

  /** Entry#uname: the ustar name, or else the uid in decimal. */
  function UName(e: Entry): (r: seq<byte>)
    ensures e.ustar.None? ==> Octal.DecimalDigits(r) && Octal.DecimalValue(r) == e.uid
  {
    if e.ustar.Some? then e.ustar.value.uname else Octal.Decimal(e.uid)
  }

  /** Entry#gname: the ustar group name, or else the gid in decimal. */
  function GName(e: Entry): (r: seq<byte>)
    ensures e.ustar.None? ==> Octal.DecimalDigits(r) && Octal.DecimalValue(r) == e.gid
  {
    if e.ustar.Some? then e.ustar.value.gname else Octal.Decimal(e.gid)
  }

  function Pow2(k: nat): (r: nat)
    ensures r >= 1
  {
    if k == 0 then 1 else 2 * Pow2(k - 1)
  }

  /** Whether `mode & 2**k` is non-zero, as 1 or 0. */
  function Bit(mode: nat, k: nat): (r: nat)
    ensures r == 0 || r == 1
  {
    (mode / Pow2(k)) % 2
  }

  const DASH: byte := 45  // '-'

  /** "rwx": the letters of the three permission bits of an owner class. */
  const RWX: seq<byte> := [114, 119, 120]

  /** One permission character: '-' when the bit is clear. */
  function PermChar(mode: nat, k: nat, c: byte): byte
  {
    if Bit(mode, k) == 0 then DASH else c
  }

  /** The file-type character: '-' for typeflag '0' or '1', 'l' for '2',
      'd' for '5', otherwise the typeflag itself. */
  function TypeChar(typeflag: byte): (r: byte)
    ensures r == DASH <==> typeflag == 48 || typeflag == 49 || typeflag == DASH
    ensures typeflag == 50 ==> r == 108
    ensures typeflag == 53 ==> r == 100
    ensures typeflag !in {48, 49, 50, 53} ==> r == typeflag
  {
    if typeflag == 48 || typeflag == 49 then DASH
    else if typeflag == 50 then 108  // 'l'
    else if typeflag == 53 then 100  // 'd'
    else typeflag
  }

  /** Entry#mode_symbolic: the type character and the nine rwx characters of
      the masks 0400 down to 0001. */
  function ModeSymbolic(e: Entry): (r: seq<byte>)
    ensures |r| == 10 && r[0] == TypeChar(e.typeflag)
    ensures forall i :: 1 <= i < 10 ==> (r[i] == DASH <==> Bit(e.mode, 9 - i) == 0)
    ensures forall i :: 1 <= i < 10 ==> r[i] == (if Bit(e.mode, 9 - i) == 0 then DASH else RWX[(i - 1) % 3])
  {
    [TypeChar(e.typeflag)] + seq(9, j requires 0 <= j < 9 => PermChar(e.mode, 8 - j, RWX[j % 3]))
  }

  /** Reading a permission string back: each non-dash character stands for
      its bit, the first one for the highest. */
  function PermValue(s: seq<byte>): nat
  {
    if |s| == 0 then 0 else (if s[0] == DASH then 0 else Pow2(|s| - 1)) + PermValue(s[1..])
  }

  /** The low n bits of mode, summed bit by bit. */
  function LowBits(mode: nat, n: nat): nat
  {
    if n == 0 then 0 else Bit(mode, n - 1) * Pow2(n - 1) + LowBits(mode, n - 1)
  }

  lemma MulAtLeast(d: int, x: int)
    requires d > 0
    ensures x >= 1 ==> d * x >= d
    ensures x <= -1 ==> d * x <= -d
  {
    if x >= 1 {
      assert d * x == d * (x - 1) + d;
    } else if x <= -1 {
      assert d * x == d * (x + 1) - d;
      assert d * (-(x + 1)) >= 0;
    }
  }

  /** Quotient and remainder are the only ones of their kind. */
  lemma DivModUnique(m: int, d: int, q: int, r: int)
    requires d > 0 && 0 <= r < d && m == d * q + r
    ensures m / d == q && m % d == r
  {
    var q0, r0 := m / d, m % d;
    assert d * (q0 - q) == r - r0;
    MulAtLeast(d, q0 - q);
  }

  /** One more bit: m % 2p is bit p of m on top of m % p. */
  lemma ModTwice(m: nat, p: nat)
    requires p > 0
    ensures m % (2 * p) == p * ((m / p) % 2) + m % p
  {
    var q, r := m / p, m % p;
    var a, b := q / 2, q % 2;
    assert m == (2 * p) * a + (p * b + r) by {
      assert m == p * q + r;
      assert q == 2 * a + b;
      assert p * q == (2 * p) * a + p * b;
    }
    assert 0 <= p * b < p + 1 && p * b <= p by {
      if b == 1 {
        assert p * b == p;
      } else {
        assert p * b == 0;
      }
    }
    DivModUnique(m, 2 * p, a, p * b + r);
  }

  lemma {:induction false} LowBitsMod(mode: nat, n: nat)
    ensures LowBits(mode, n) == mode % Pow2(n)
  {
    if n > 0 {
      LowBitsMod(mode, n - 1);
      ModTwice(mode, Pow2(n - 1));
    }
  }

  /** A permission string whose dashes mark exactly the clear bits among
      the low n reads back as those n bits. */
  lemma {:induction false} PermValueBits(s: seq<byte>, mode: nat, n: nat)
    requires |s| == n
    requires forall i :: 0 <= i < n ==> (s[i] == DASH <==> Bit(mode, n - 1 - i) == 0)
    ensures PermValue(s) == LowBits(mode, n)
  {
    if n > 0 {
      var t := s[1..];
      forall i | 0 <= i < n - 1
        ensures t[i] == DASH <==> Bit(mode, n - 2 - i) == 0
      {
        assert t[i] == s[i + 1];
      }
      PermValueBits(t, mode, n - 1);
      assert s[0] == DASH <==> Bit(mode, n - 1) == 0;
    }
  }

  /** mode_symbolic loses nothing of the permission bits: reading its last
      nine characters back gives `mode & 0777`. */
  lemma ModeSymbolicInverse(e: Entry)
    ensures PermValue(ModeSymbolic(e)[1..]) == e.mode % 512
  {
    var r := ModeSymbolic(e);
    var s := r[1..];
    assert forall i :: 0 <= i < 9 ==> s[i] == r[i + 1];
    PermValueBits(s, e.mode, 9);
    LowBitsMod(e.mode, 9);
    assert Pow2(9) == 512;
  }

  // ---------------------------------------------------------------------------
  // Reading back what TarWriter#header writes

  /** The entry the reader makes of a header TarWriter wrote at `pos - 512`. */
  function WrittenEntry(name: seq<byte>, size: nat, time: nat, pos: nat): Entry
  {
    Entry(name, Header.MODE_0664, Header.NOBODY_ID, Header.NOBODY_ID, size, time,
      Header.REGULAR, [], Some(Header.USTAR + [NUL]),
      Some(UstarFields(Header.NOBODY, Header.NOBODY, 0, 0, [])), pos, RoundUp512(size))
  }

  /** A name that `unpack('A100')` gives back unchanged: shorter than 100
      bytes and not ending in a NUL or a space. */
  predicate ReadableName(name: seq<byte>)
  {
    |name| < 100 && (|name| > 0 ==> !IsPad(name[|name| - 1]))
  }

  /** The writer's constant fields, as the reader decodes them. */
  lemma ConstantValues()
    ensures Octal.Parse(Header.MODE_TEXT + [NUL]) == Header.MODE_0664
    ensures Octal.Parse(Header.ID_TEXT + [NUL]) == Header.NOBODY_ID
    ensures Octal.Parse(Header.DEV_TEXT + [NUL]) == 0
    ensures UnpackA(Header.NOBODY + Zeros(26)) == Header.NOBODY
    ensures UnpackA(Zeros(100)) == [] && UnpackA(Zeros(155)) == []
    ensures UstarMagic(Header.USTAR + [NUL])
  {
    ParsedTexts();
    UnpackAPadded(Header.NOBODY, Zeros(26));
    UnpackAZeros(100);
    UnpackAZeros(155);
  }

  lemma ParsedTexts()
    ensures Octal.Parse(Header.MODE_TEXT + [NUL]) == Header.MODE_0664
    ensures Octal.Parse(Header.ID_TEXT + [NUL]) == Header.NOBODY_ID
    ensures Octal.Parse(Header.DEV_TEXT + [NUL]) == 0
  {
    Header.ConstantTexts();
    ParseText(Header.MODE_0664, Header.MODE_TEXT);
    ParseText(Header.NOBODY_ID, Header.ID_TEXT);
    ParseText(0, Header.DEV_TEXT);
  }

  /** A seven-digit field followed by its NUL reads back as its value. */
  lemma ParseText(n: nat, text: seq<byte>)
    requires Octal.Format(n, 7) == text
    ensures Octal.Parse(text + [NUL]) == n
  {
    Octal.ParseFormat(n, 7, [NUL]);
  }

  /** Decoding a record laid out field by field as the writer lays it out. */
  lemma DecodeLaidOut(buf: seq<byte>, pos: nat, name: seq<byte>, size: nat, time: nat)
    requires |buf| == RECORD && ReaderValid(buf) && ReadableName(name)
    requires size < Octal.Pow8(12) && time < Octal.Pow8(12)
    requires buf[..100] == PackNul(name, 100) && buf[124..136] == Header.NumberField(size) &&
      buf[136..148] == Header.NumberField(time)
    requires buf[100..108] == Header.MODE_TEXT + [NUL] && buf[108..116] == Header.ID_TEXT + [NUL] &&
      buf[116..124] == Header.ID_TEXT + [NUL]
    requires buf[156] == Header.REGULAR && buf[157..257] == Zeros(100) && buf[257..263] == Header.USTAR + [NUL]
    requires buf[265..297] == Header.NOBODY + Zeros(26) && buf[297..329] == Header.NOBODY + Zeros(26)
    requires buf[329..337] == Header.DEV_TEXT + [NUL] && buf[337..345] == Header.DEV_TEXT + [NUL]
    requires buf[345..500] == Zeros(155)
    ensures Decode(buf, pos) == Ok(WrittenEntry(name, size, time, pos))
  {
    ConstantValues();
    UnpackPackNul(name, 100);
    Header.NumberFieldParse(size);
    Header.NumberFieldParse(time);
    assert UstarAt(buf);
  }

  /** Padding a header to a record leaves its fields where they were. */
  lemma PaddedFields(h: seq<byte>, buf: seq<byte>)
    requires |h| == Header.HEADER_SIZE && buf == h + Zeros(12)
    ensures |buf| == RECORD && buf[156] == h[156]
    ensures buf[..100] == h[..100] && buf[100..108] == h[100..108] && buf[108..116] == h[108..116]
    ensures buf[116..124] == h[116..124] && buf[124..136] == h[124..136] && buf[136..148] == h[136..148]
    ensures buf[157..257] == h[157..257] && buf[257..263] == h[257..263] && buf[265..297] == h[265..297]
    ensures buf[297..329] == h[297..329] && buf[329..337] == h[329..337] && buf[337..345] == h[337..345]
    ensures buf[345..500] == h[345..]
  {
    assert buf[..500] == h;
  }

  /** The header round trip: what TarWriter#header writes (padded to a
      record by block_write) the reader decodes to the same name, size and
      mtime, with the writer's fixed mode, owner and ustar fields. */
  lemma ReadWrittenHeader(name: seq<byte>, size: nat, time: nat, pos: nat)
    requires ReadableName(name) && size < Octal.Pow8(12) && time < Octal.Pow8(12)
    ensures Header.Checksummed(name, size, time).Ok?
    ensures Decode(Header.Checksummed(name, size, time).value + Zeros(12), pos) == Ok(WrittenEntry(name, size, time, pos))
  {
    Header.WrittenFields(name, size, time);
    var h := Header.Checksummed(name, size, time).value;
    PaddedFields(h, h + Zeros(12));
    DecodeLaidOut(h + Zeros(12), pos, name, size, time);
  }

  /** Every header the writer makes lists as "-rw-rw-r--". */
  lemma Pow2Values()
    ensures Pow2(0) == 1 && Pow2(1) == 2 && Pow2(2) == 4 && Pow2(3) == 8 && Pow2(4) == 16
    ensures Pow2(5) == 32 && Pow2(6) == 64 && Pow2(7) == 128 && Pow2(8) == 256
  {
    assert Pow2(4) == 16;
  }

  lemma WrittenModeSymbolic(name: seq<byte>, size: nat, time: nat, pos: nat)
    ensures ModeSymbolic(WrittenEntry(name, size, time, pos)) == [45, 114, 119, 45, 114, 119, 45, 114, 45, 45]
  {
    var r := ModeSymbolic(WrittenEntry(name, size, time, pos));
    var m := Header.MODE_0664;
    Pow2Values();
    assert Bit(m, 8) == 1 && Bit(m, 7) == 1 && Bit(m, 6) == 0;
    assert Bit(m, 5) == 1 && Bit(m, 4) == 1 && Bit(m, 3) == 0;
    assert Bit(m, 2) == 1 && Bit(m, 1) == 0 && Bit(m, 0) == 0;
    assert r[1] == 114 && r[2] == 119 && r[3] == 45 && r[4] == 114 && r[5] == 119;
    assert r[6] == 45 && r[7] == 114 && r[8] == 45 && r[9] == 45;
  }
}
