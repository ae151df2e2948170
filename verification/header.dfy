/** TarWriter#header: the 500-byte ustar header the writer packs with the
    template "a100 a8 a8 a8 a12 a12 A8 a1 a100 a6 a2 a32 a32 a8 a8 a155",
    and the two passes that embed its checksum. */
module Header {
  import opened Bytes
  import opened Errors
  import opened Checksum
  import Octal

  // ---------------------------------------------------------------------------
  // TarWriter#header

  const MODE_0664: nat := 436
  const NOBODY_ID: nat := 99
  const REGULAR: byte := 48                                 // '0'
  const USTAR: seq<byte> := [117, 115, 116, 97, 114]        // "ustar"
  const VERSION_00: seq<byte> := [48, 48]                   // "00"
  const NOBODY: seq<byte> := [110, 111, 98, 111, 100, 121]  // "nobody"

  /** `sprintf("%07o", 0664)`, `sprintf("%07o", 99)` and `sprintf('%07o', 0)`;
      ConstantTexts shows they are what Octal.Format gives. */
  const MODE_TEXT: seq<byte> := [48, 48, 48, 48, 54, 54, 52]  // "0000664"
  const ID_TEXT: seq<byte> := [48, 48, 48, 48, 49, 52, 51]    // "0000143"
  const DEV_TEXT: seq<byte> := [48, 48, 48, 48, 48, 48, 48]   // "0000000"

  /** The checksum text: `sprintf("%06o\0", cksum)`, or `""` on the first pass. */
  function ChecksumText(cksum: Option<nat>): seq<byte>
  {
    match cksum
    case None => []
    case Some(c) => Octal.Format(c, 6) + [NUL]
  }

  /** The octal texts of the header's constants. */
  lemma ConstantTexts()
    ensures Octal.Format(MODE_0664, 7) == MODE_TEXT
    ensures Octal.Format(NOBODY_ID, 7) == ID_TEXT
    ensures Octal.Format(0, 7) == DEV_TEXT
  {
    assert Octal.Format(6, 2) == [48, 54];
    assert Octal.Format(54, 3) == [48, 54, 54];
    assert Octal.Format(1, 2) == [48, 49];
    assert Octal.Format(12, 3) == [48, 49, 52];
    assert Octal.Format(0, 2) == [48, 48];
    assert Octal.Format(0, 3) == [48, 48, 48];
    assert Octal.Format(0, 4) == [48, 48, 48, 48];
    assert Octal.Format(0, 5) == [48, 48, 48, 48, 48];
    assert Octal.Format(0, 6) == [48, 48, 48, 48, 48, 48];
  }

  // The template "a100 a8 a8 a8 a12 a12 A8 a1 a100 a6 a2 a32 a32 a8 a8 a155"
  // packs each value on its own and concatenates the results. Its fields fall
  // into six runs: the name, mode/uid/gid, size, mtime, the checksum, and the
  // nine fields from typeflag to prefix, which are the same in every header.

  const HEADER_SIZE: nat := 500

  /** mode, uid and gid, `a8 a8 a8`: bytes 100..123. */
  const OWNER_FIELDS: seq<byte> := PackNul(MODE_TEXT, 8) + PackNul(ID_TEXT, 8) + PackNul(ID_TEXT, 8)

  /** typeflag '0', linkname "", magic "ustar", version "00", uname and gname
      "nobody", devmajor and devminor 0 and prefix "", `a1 a100 a6 a2 a32
      a32 a8 a8 a155`: bytes 156..499. */
  const TRAILER: seq<byte> := TYPE_AND_MAGIC + NAMES_AND_PREFIX

  /** typeflag, linkname, magic and version: bytes 156..264. */
  const TYPE_AND_MAGIC: seq<byte> :=
    PackNul([REGULAR], 1) + PackNul([], 100) + PackNul(USTAR, 6) + PackNul(VERSION_00, 2)

  /** uname, gname, devmajor, devminor and prefix: bytes 265..499. */
  const NAMES_AND_PREFIX: seq<byte> :=
    PackNul(NOBODY, 32) + PackNul(NOBODY, 32) + PackNul(DEV_TEXT, 8) + PackNul(DEV_TEXT, 8) + PackNul([], 155)

  /** A size or mtime field: `sprintf("%011o", n)` packed with `a12`. */
  function NumberField(n: nat): (r: seq<byte>)
    ensures |r| == 12
  {
    PackNul(Octal.Format(n, 11), 12)
  }

  /** The checksum field, packed with `A8`: eight spaces on the first pass,
      six digits, a NUL and a space on the second. */
  function ChecksumField(cksum: Option<nat>): (r: seq<byte>)
    ensures |r| == 8
  {
    PackSpace(ChecksumText(cksum), 8)
  }

  /** TarWriter#header: raises on a name of 100 bytes or more, else packs the
      fixed 500-byte header. */
  function Build(name: seq<byte>, size: nat, time: nat, cksum: Option<nat>): (r: Result<seq<byte>>)
    ensures r.Raise? <==> |name| >= 100
    ensures r.Raise? ==> r.error == NameTooLong
    ensures r.Ok? ==> |r.value| == HEADER_SIZE
  {
    if |name| >= 100 then Raise(NameTooLong)
    else Ok(PackNul(name, 100) + OWNER_FIELDS + NumberField(size) + NumberField(time) + ChecksumField(cksum) + TRAILER)
  }

  lemma Runs(a: seq<byte>, b: seq<byte>, c: seq<byte>, d: seq<byte>, e: seq<byte>, f: seq<byte>)
    ensures var h := a + b + c + d + e + f;
      var i, j, k, l, m := |a|, |a| + |b|, |a| + |b| + |c|, |a| + |b| + |c| + |d|, |a| + |b| + |c| + |d| + |e|;
      h[..i] == a && h[i..j] == b && h[j..k] == c && h[k..l] == d && h[l..m] == e && h[m..] == f
  {
    var h := a + b + c + d + e + f;
    assert h[..|h|] == h;
    Peel(h, a + b + c + d + e, f);
    Peel(h, a + b + c + d, e);
    Peel(h, a + b + c, d);
    Peel(h, a + b, c);
    Peel(h, a, b);
  }

  lemma Peel(h: seq<byte>, p: seq<byte>, x: seq<byte>)
    requires |p| + |x| <= |h| && h[..|p| + |x|] == p + x
    ensures h[..|p|] == p && h[|p|..|p| + |x|] == x
  {
    SubRun(h, 0, p + x, 0, |p|);
    SubRun(h, 0, p + x, |p|, |p| + |x|);
  }

  /** Where each value lands in the header. */
  lemma Layout(name: seq<byte>, size: nat, time: nat, cksum: Option<nat>)
    requires |name| < 100
    ensures Build(name, size, time, cksum).Ok?
    ensures var h := Build(name, size, time, cksum).value;
      h[..100] == PackNul(name, 100) && h[100..124] == OWNER_FIELDS &&
      h[124..136] == NumberField(size) && h[136..148] == NumberField(time) &&
      h[148..156] == ChecksumField(cksum) && h[156..] == TRAILER
  {
    Runs(PackNul(name, 100), OWNER_FIELDS, NumberField(size), NumberField(time), ChecksumField(cksum), TRAILER);
  }


  lemma TypeAndMagicFields()
    ensures |TYPE_AND_MAGIC| == 109
    ensures TYPE_AND_MAGIC[0] == REGULAR
    ensures TYPE_AND_MAGIC[1..101] == Zeros(100)
    ensures TYPE_AND_MAGIC[101..107] == USTAR + [NUL]
    ensures TYPE_AND_MAGIC[107..] == VERSION_00
  {
    var a, b, c, d := PackNul([REGULAR], 1), PackNul([], 100), PackNul(USTAR, 6), PackNul(VERSION_00, 2);
    assert a == [REGULAR];
    assert b == Zeros(100);
    assert c == USTAR + [NUL];
    assert d == VERSION_00;
    var t := a + b + c + d;
    assert t[1..101] == b;
    assert t[101..107] == c;
    assert t[107..] == d;
  }

  lemma NamesAndPrefixFields()
    ensures |NAMES_AND_PREFIX| == 235
    ensures NAMES_AND_PREFIX[..32] == NOBODY + Zeros(26)
    ensures NAMES_AND_PREFIX[32..64] == NOBODY + Zeros(26)
    ensures NAMES_AND_PREFIX[64..72] == DEV_TEXT + [NUL]
    ensures NAMES_AND_PREFIX[72..80] == DEV_TEXT + [NUL]
    ensures NAMES_AND_PREFIX[80..] == Zeros(155)
  {
    var a, c, e := PackNul(NOBODY, 32), PackNul(DEV_TEXT, 8), PackNul([], 155);
    assert a == NOBODY + Zeros(26);
    assert c == DEV_TEXT + [NUL];
    assert e == Zeros(155);
    var t := a + a + c + c + e;
    assert t[32..64] == a;
    assert t[64..72] == c;
    assert t[72..80] == c;
    assert t[80..] == e;
  }

  lemma OwnerFields()
    ensures |OWNER_FIELDS| == 24
    ensures OWNER_FIELDS[..8] == MODE_TEXT + [NUL]
    ensures OWNER_FIELDS[8..16] == ID_TEXT + [NUL]
    ensures OWNER_FIELDS[16..] == ID_TEXT + [NUL]
  {
    var a, b := PackNul(MODE_TEXT, 8), PackNul(ID_TEXT, 8);
    assert a == MODE_TEXT + [NUL];
    assert b == ID_TEXT + [NUL];
    assert (a + b + b)[8..16] == b;
  }

  /** The fields every header shares: mode 0664, uid and gid 99, typeflag
      '0', an empty linkname, magic "ustar\0", version "00", owner names
      "nobody", device numbers 0 and an empty prefix. */
  lemma FixedFields(name: seq<byte>, size: nat, time: nat, cksum: Option<nat>)
    requires |name| < 100
    ensures Build(name, size, time, cksum).Ok?
    ensures var h := Build(name, size, time, cksum).value;
      h[100..108] == MODE_TEXT + [NUL] && h[108..116] == ID_TEXT + [NUL] && h[116..124] == ID_TEXT + [NUL] &&
      h[156] == REGULAR && h[157..257] == Zeros(100) && h[257..263] == USTAR + [NUL] && h[263..265] == VERSION_00 &&
      h[265..297] == NOBODY + Zeros(26) && h[297..329] == NOBODY + Zeros(26) &&
      h[329..337] == DEV_TEXT + [NUL] && h[337..345] == DEV_TEXT + [NUL] && h[345..] == Zeros(155)
  {
    Layout(name, size, time, cksum);
    var h := Build(name, size, time, cksum).value;
    OwnerPart(h);
    TrailerPart(h);
  }

  lemma OwnerPart(h: seq<byte>)
    requires |h| == HEADER_SIZE && h[100..124] == OWNER_FIELDS
    ensures h[100..108] == MODE_TEXT + [NUL] && h[108..116] == ID_TEXT + [NUL] && h[116..124] == ID_TEXT + [NUL]
  {
    OwnerFields();
    SubRun(h, 100, OWNER_FIELDS, 100, 108);
    SubRun(h, 100, OWNER_FIELDS, 108, 116);
    SubRun(h, 100, OWNER_FIELDS, 116, 124);
  }

  lemma TrailerPart(h: seq<byte>)
    requires |h| == HEADER_SIZE && h[156..] == TRAILER
    ensures h[156] == REGULAR && h[157..257] == Zeros(100) && h[257..263] == USTAR + [NUL] && h[263..265] == VERSION_00
    ensures h[265..297] == NOBODY + Zeros(26) && h[297..329] == NOBODY + Zeros(26)
    ensures h[329..337] == DEV_TEXT + [NUL] && h[337..345] == DEV_TEXT + [NUL] && h[345..] == Zeros(155)
  {
    TypeAndMagicFields();
    NamesAndPrefixFields();
    SubRun(h, 156, TRAILER, 156, 265);
    SubRun(h, 156, TRAILER, 265, 500);
    assert TRAILER[..109] == TYPE_AND_MAGIC && TRAILER[109..] == NAMES_AND_PREFIX;
    assert h[156] == TYPE_AND_MAGIC[0];
    SubRun(h, 156, TYPE_AND_MAGIC, 157, 257);
    SubRun(h, 156, TYPE_AND_MAGIC, 257, 263);
    SubRun(h, 156, TYPE_AND_MAGIC, 263, 265);
    SubRun(h, 265, NAMES_AND_PREFIX, 265, 297);
    SubRun(h, 265, NAMES_AND_PREFIX, 297, 329);
    SubRun(h, 265, NAMES_AND_PREFIX, 329, 337);
    SubRun(h, 265, NAMES_AND_PREFIX, 337, 345);
    SubRun(h, 265, NAMES_AND_PREFIX, 345, 500);
  }

  /** A size or mtime below 8^12 reads back from its field, with or without
      `unpack('A*')` first; larger values lose their high digits to `a12`. */
  lemma NumberFieldParse(n: nat)
    requires n < Octal.Pow8(12)
    ensures Octal.Parse(NumberField(n)) == n
    ensures Octal.Parse(UnpackA(NumberField(n))) == n
  {
    var f := Octal.Format(n, 11);
    Octal.FormatLength(n, 11, 12);
    if |f| == 11 {
      assert NumberField(n) == f + [NUL];
      Octal.ParseFormat(n, 11, [NUL]);
    } else {
      assert NumberField(n) == f + [];
      Octal.ParseFormat(n, 11, []);
    }
    Octal.ParseUnpackA(NumberField(n));
  }

  // ---------------------------------------------------------------------------
  // The two passes of add and add2

  /** `testhdr = header(bfnam, size, time)`, its byte sum, and
      `hdr = header(bfnam, size, time, cksum)`. */
  function Checksummed(name: seq<byte>, size: nat, time: nat): (r: Result<seq<byte>>)
    ensures r.Raise? <==> |name| >= 100
    ensures r.Raise? ==> r.error == NameTooLong
    ensures r.Ok? ==> |r.value| == HEADER_SIZE
  {
    var first :- Build(name, size, time, None);
    Build(name, size, time, Some(Sum(first)))
  }

  /** The second pass differs from the first only in the checksum field, which
      holds the first pass's sum as six octal digits, a NUL and a space; so the
      header, padded to a record, passes the reader's checksum test and the
      500-byte test of find_eof and tarfix. */
  lemma TwoPass(name: seq<byte>, size: nat, time: nat)
    requires |name| < 100
    ensures Checksummed(name, size, time).Ok?
    ensures var first := Build(name, size, time, None).value;
      var h := Checksummed(name, size, time).value;
      var c := Sum(first);
      c < Octal.Pow8(6) &&
      first[148..156] == Spaces(8) &&
      h[..148] == first[..148] && h[156..] == first[156..] &&
      h[148..156] == Octal.Format(c, 6) + [NUL, SPACE] &&
      Blanked(h) == first && BlankedSum(h) == c &&
      ReaderValid(h + Zeros(12)) && PrefixValid(h + Zeros(12))
  {
    var first := Build(name, size, time, None).value;
    var c := Sum(first);
    var h := Checksummed(name, size, time).value;
    SumBound(first);
    ChecksumFields(c);
    SameOutsideChecksum(name, size, time, None, Some(c));
    BlankedFirstPass(h, first);
    StoredSumValid(h, first);
  }

  lemma BlankedFirstPass(h: seq<byte>, first: seq<byte>)
    requires |h| == |first| == HEADER_SIZE
    requires h[..148] == first[..148] && h[156..] == first[156..] && first[148..156] == Spaces(8)
    ensures Blanked(h) == first
  {
    assert first == first[..148] + first[148..156] + first[156..];
  }

  /** Two headers that differ only in the checksum argument differ only in
      the checksum field. */
  lemma SameOutsideChecksum(name: seq<byte>, size: nat, time: nat, c1: Option<nat>, c2: Option<nat>)
    requires |name| < 100
    ensures Build(name, size, time, c1).Ok? && Build(name, size, time, c2).Ok?
    ensures var h1, h2 := Build(name, size, time, c1).value, Build(name, size, time, c2).value;
      h1[..148] == h2[..148] && h1[156..] == h2[156..] &&
      h1[148..156] == ChecksumField(c1) && h2[148..156] == ChecksumField(c2)
  {
    var h1, h2 := Build(name, size, time, c1).value, Build(name, size, time, c2).value;
    Layout(name, size, time, c1);
    Layout(name, size, time, c2);
    assert h1[..148] == h1[..100] + h1[100..124] + h1[124..136] + h1[136..148];
    assert h2[..148] == h2[..100] + h2[100..124] + h2[124..136] + h2[136..148];
  }

  /** The two texts the `A8` checksum field holds. */
  lemma ChecksumFields(c: nat)
    requires c < Octal.Pow8(6)
    ensures ChecksumField(None) == Spaces(8)
    ensures |Octal.Format(c, 6)| == 6
    ensures ChecksumField(Some(c)) == Octal.Format(c, 6) + [NUL, SPACE]
  {
    assert ChecksumField(None) == [] + Spaces(8);
    assert ChecksumField(Some(c)) == Octal.Format(c, 6) + [NUL] + Spaces(1);
  }

  /** A header whose field stores the sum of its blanked self is valid once
      `pack('a512')` pads it to a record. */
  lemma StoredSumValid(h: seq<byte>, first: seq<byte>)
    requires |h| == HEADER_SIZE && Blanked(h) == first
    requires h[148..156] == Octal.Format(Sum(first), 6) + [NUL, SPACE]
    ensures BlankedSum(h) == Sum(first)
    ensures ReaderValid(h + Zeros(12)) && PrefixValid(h + Zeros(12))
  {
    var buf := h + Zeros(12);
    PaddedSum(h, first, buf);
    StoredField(h, first, buf);
    assert buf[500..] == Zeros(12);
    ChecksAgreeOnZeroTail(buf);
  }

  lemma PaddedSum(h: seq<byte>, first: seq<byte>, buf: seq<byte>)
    requires |h| == HEADER_SIZE && Blanked(h) == first && buf == h + Zeros(12)
    ensures BlankedSum(buf) == Sum(first)
  {
    assert Blanked(buf) == first + Zeros(12);
    SumAppend(first, Zeros(12));
    SumZeros(12);
  }

  lemma StoredField(h: seq<byte>, first: seq<byte>, buf: seq<byte>)
    requires |h| == HEADER_SIZE && buf == h + Zeros(12)
    requires h[148..156] == Octal.Format(Sum(first), 6) + [NUL, SPACE]
    ensures Octal.Parse(buf[148..156]) == Sum(first)
  {
    assert buf[148..156] == h[148..156];
    Octal.ParseFormat(Sum(first), 6, [NUL, SPACE]);
  }

  /** Every field of the header add writes, and its validity as a record. */
  lemma WrittenFields(name: seq<byte>, size: nat, time: nat)
    requires |name| < 100
    ensures Checksummed(name, size, time).Ok?
    ensures var h := Checksummed(name, size, time).value;
      h[..100] == PackNul(name, 100) && h[124..136] == NumberField(size) && h[136..148] == NumberField(time) &&
      h[100..108] == MODE_TEXT + [NUL] && h[108..116] == ID_TEXT + [NUL] && h[116..124] == ID_TEXT + [NUL] &&
      h[156] == REGULAR && h[157..257] == Zeros(100) && h[257..263] == USTAR + [NUL] && h[263..265] == VERSION_00 &&
      h[265..297] == NOBODY + Zeros(26) && h[297..329] == NOBODY + Zeros(26) &&
      h[329..337] == DEV_TEXT + [NUL] && h[337..345] == DEV_TEXT + [NUL] && h[345..] == Zeros(155) &&
      ReaderValid(h + Zeros(12)) && PrefixValid(h + Zeros(12))
  {
    var c := Sum(Build(name, size, time, None).value);
    Layout(name, size, time, Some(c));
    FixedFields(name, size, time, Some(c));
    TwoPass(name, size, time);
  }
}
