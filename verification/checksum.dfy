/** The header checksum: the byte sum of a record whose checksum field
    (bytes 148..155) reads as eight spaces, compared with the octal number
    stored in that field. The reader checks all 512 bytes of a record;
    find_eof and tarfix check only its first 500. */
module Checksum {
  import opened Bytes
  import Octal

  const CHKSUM_OFFSET: nat := 148
  const CHKSUM_END: nat := 156

  /** `xbuf[148, 8] = ' ' * 8`: on a record of at least 148 bytes, replace the
      (possibly short) field with eight spaces. */
  function Blanked(buf: seq<byte>): (r: seq<byte>)
    requires |buf| >= CHKSUM_OFFSET
    ensures |r| == CHKSUM_END + |buf| - Min(CHKSUM_END, |buf|)
    ensures r[..CHKSUM_OFFSET] == buf[..CHKSUM_OFFSET]
    ensures r[CHKSUM_OFFSET..CHKSUM_END] == Spaces(8)
    ensures r[CHKSUM_END..] == buf[Min(CHKSUM_END, |buf|)..]
  {
    buf[..CHKSUM_OFFSET] + Spaces(8) + buf[Min(CHKSUM_END, |buf|)..]
  }

  /** The sum of a record with its checksum field blanked. */
  function BlankedSum(buf: seq<byte>): nat
    requires |buf| >= CHKSUM_OFFSET
  {
    Sum(Blanked(buf))
  }

  /** The reader's test (lib/tarreader.rb:25-30 and 108-113): the whole
      record, the field read with `to_i(8)`. */
  predicate ReaderValid(buf: seq<byte>)
  {
    |buf| >= CHKSUM_OFFSET &&
    BlankedSum(buf) == Octal.Parse(buf[CHKSUM_OFFSET..Min(CHKSUM_END, |buf|)])
  }

  /** The first 500 bytes of a record, `blk[0, 500]`. */
  function Prefix500(blk: seq<byte>): (r: seq<byte>)
    ensures |r| == Min(500, |blk|)
    ensures forall i | 0 <= i < |r| :: r[i] == blk[i]
    ensures |blk| > 500 ==> r + blk[500..] == blk
  {
    blk[..Min(500, |blk|)]
  }

  /** The test of find_eof and tarfix (lib/tarwriter.rb:155-160,
      research/debug1/tarfix.rb:20-26): only the first 500 bytes, the field
      read with `unpack('A*')` and `to_i(8)`. */
  predicate PrefixValid(blk: seq<byte>)
  {
    var hdr := Prefix500(blk);
    |hdr| >= CHKSUM_OFFSET &&
    BlankedSum(hdr) == Octal.Parse(UnpackA(hdr[CHKSUM_OFFSET..Min(CHKSUM_END, |hdr|)]))
  }

  lemma BlankedSumSplit(buf: seq<byte>)
    requires |buf| >= CHKSUM_END
    ensures BlankedSum(buf) == Sum(buf[..CHKSUM_OFFSET]) + 256 + Sum(buf[CHKSUM_END..])
  {
    SumAppend(buf[..CHKSUM_OFFSET] + Spaces(8), buf[CHKSUM_END..]);
    SumAppend(buf[..CHKSUM_OFFSET], Spaces(8));
    SumSpaces(8);
  }

  /** The reader's test on a record that holds the whole field: the bytes
      outside the field plus eight spaces sum to the number in the field. */
  lemma ReaderValidSum(buf: seq<byte>)
    requires |buf| >= CHKSUM_END
    ensures ReaderValid(buf) <==>
      Sum(buf[..CHKSUM_OFFSET]) + 256 + Sum(buf[CHKSUM_END..]) == Octal.Parse(buf[CHKSUM_OFFSET..CHKSUM_END])
  {
    BlankedSumSplit(buf);
  }

  /** The 500-byte test on a block that holds the whole field: the first 500
      bytes outside the field plus eight spaces sum to the number in the
      field, trailing NULs and spaces stripped. Bytes 500 and on count for
      nothing. */
  lemma PrefixValidSum(blk: seq<byte>)
    requires |blk| >= CHKSUM_END
    ensures PrefixValid(blk) <==>
      Sum(blk[..CHKSUM_OFFSET]) + 256 + Sum(blk[CHKSUM_END..Min(500, |blk|)]) ==
        Octal.Parse(UnpackA(blk[CHKSUM_OFFSET..CHKSUM_END]))
  {
    var hdr := Prefix500(blk);
    assert hdr == blk[..Min(500, |blk|)];
    BlankedSumSplit(hdr);
    assert hdr[..CHKSUM_OFFSET] == blk[..CHKSUM_OFFSET];
    assert hdr[CHKSUM_END..] == blk[CHKSUM_END..Min(500, |blk|)];
    assert hdr[CHKSUM_OFFSET..CHKSUM_END] == blk[CHKSUM_OFFSET..CHKSUM_END];
  }

  /** A blank record fails the reader's test: its field of NULs and spaces
      reads as 0, while the blanked sum counts the eight spaces put there. */
  lemma BlankNotValid(buf: seq<byte>)
    requires Blank(buf)
    ensures !ReaderValid(buf)
  {
    if |buf| >= CHKSUM_OFFSET {
      BlankIffPadding(buf);
      var field := buf[CHKSUM_OFFSET..Min(CHKSUM_END, |buf|)];
      assert Octal.NoDigits(field) by {
        forall i | 0 <= i < |field|
          ensures !Octal.IsDigit(field[i])
        {
          assert field[i] == buf[CHKSUM_OFFSET + i];
        }
      }
      Octal.NoDigitsParse(field);
      SumAppend(buf[..CHKSUM_OFFSET] + Spaces(8), buf[Min(CHKSUM_END, |buf|)..]);
      SumAppend(buf[..CHKSUM_OFFSET], Spaces(8));
      SumSpaces(8);
    }
  }

  /** On a full record whose last 12 bytes are NUL, the two tests agree. */
  lemma ChecksAgreeOnZeroTail(buf: seq<byte>)
    requires |buf| == 512 && AllZero(buf[500..])
    ensures ReaderValid(buf) <==> PrefixValid(buf)
  {
    var hdr := Prefix500(buf);
    assert buf == hdr + buf[500..];
    assert Blanked(buf) == Blanked(hdr) + buf[500..];
    SumAppend(Blanked(hdr), buf[500..]);
    assert buf[500..] == Zeros(12);
    SumZeros(12);
    assert hdr[CHKSUM_OFFSET..CHKSUM_END] == buf[CHKSUM_OFFSET..CHKSUM_END];
    Octal.ParseUnpackA(buf[CHKSUM_OFFSET..CHKSUM_END]);
  }

  /** The two tests do differ: a record that find_eof and tarfix accept
      stops satisfying the reader once one of its last 12 bytes is set. */
  lemma ChecksDisagreeOnTail(buf: seq<byte>, i: nat, b: byte)
    requires |buf| == 512 && AllZero(buf[500..]) && PrefixValid(buf)
    requires 500 <= i < 512 && b != NUL
    ensures PrefixValid(buf[i := b])
    ensures !ReaderValid(buf[i := b])
  {
    ChecksAgreeOnZeroTail(buf);
    var buf' := buf[i := b];
    assert Prefix500(buf') == Prefix500(buf);
    BlankedSumSplit(buf);
    BlankedSumSplit(buf');
    assert buf'[..CHKSUM_OFFSET] == buf[..CHKSUM_OFFSET];
    assert buf'[CHKSUM_END..] == buf[CHKSUM_END..][i - CHKSUM_END := b];
    SumUpdate(buf[CHKSUM_END..], i - CHKSUM_END, b);
    assert buf'[CHKSUM_OFFSET..CHKSUM_END] == buf[CHKSUM_OFFSET..CHKSUM_END];
  }

  /** Changing a byte outside the checksum field changes the blanked record
      in the same place. */
  lemma BlankedUpdate(buf: seq<byte>, i: nat, b: byte)
    requires |buf| >= CHKSUM_OFFSET
    requires i < |buf| && !(CHKSUM_OFFSET <= i < CHKSUM_END)
    ensures i < |Blanked(buf)| && Blanked(buf)[i] == buf[i]
    ensures Blanked(buf[i := b]) == Blanked(buf)[i := b]
  {
    var buf' := buf[i := b];
    if i < CHKSUM_OFFSET {
      assert buf'[..CHKSUM_OFFSET] == buf[..CHKSUM_OFFSET][i := b];
      assert buf'[Min(CHKSUM_END, |buf|)..] == buf[Min(CHKSUM_END, |buf|)..];
    } else {
      assert buf'[..CHKSUM_OFFSET] == buf[..CHKSUM_OFFSET];
      assert buf'[CHKSUM_END..] == buf[CHKSUM_END..][i - CHKSUM_END := b];
    }
  }

  /** A record the reader accepts is rejected once any single byte outside
      the checksum field changes. */
  lemma ReaderDetectsByteChange(buf: seq<byte>, i: nat, b: byte)
    requires ReaderValid(buf)
    requires i < |buf| && !(CHKSUM_OFFSET <= i < CHKSUM_END) && b != buf[i]
    ensures !ReaderValid(buf[i := b])
  {
    var buf' := buf[i := b];
    assert buf'[CHKSUM_OFFSET..Min(CHKSUM_END, |buf|)] == buf[CHKSUM_OFFSET..Min(CHKSUM_END, |buf|)];
    BlankedUpdate(buf, i, b);
    SumUpdate(Blanked(buf), i, b);
  }
}
