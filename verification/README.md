# tarwriter in Dafny

A model of the tar code of the `tarwriter` Ruby library:

- the writer, `TarWriter` in lib/tarwriter.rb;
- the reader, `TarReader` in lib/tarreader.rb;
- the repair filter `tarfix` in research/debug1/tarfix.rb.

An archive is a sequence of 512-byte records. Each file is a 500-byte ustar header padded to a record, followed by its content padded with NULs to whole records. The archive ends with two records of NULs. The writer groups records into blocks of 20 (10240 bytes).

Files are byte sequences (`seq<byte>`), and positions are offsets into them. Each Ruby primitive is spelled out as a function over bytes:
- `str[off, len]`;
- `pack('a')` and `pack('A')`;
- `unpack('A')`;
- `IO#read` and `IO#write` at a position;
- `String#to_i(8)`;
- `sprintf('%0No')`.

The exceptions the code raises become `Errors.Result` values.

| module | file | what it holds |
|---|---|---|
| `Bytes` | bytes.dfy | bytes, NUL padding, the Ruby string and IO primitives, the rounding of a size up to whole records |
| `Octal` | octal.dfy | `sprintf("%0No")`, `to_i(8)`, `Integer#to_s` |
| `Checksum` | checksum.dfy | the reader's 512-byte checksum test and the 500-byte test of find_eof and tarfix |
| `Errors` | errors.dfy | the raised exceptions as values |
| `Header` | header.dfy | `TarWriter#header` and the two passes that embed the checksum |
| `Writer` | writer.dfy | the record pool, `block_write`, `pure_flush`, `flush`, `close`, `add`, `add2`, opening |
| `Eof` | findeof.dfy | `TarWriter#find_eof`, and a corrected search |
| `Reader` | reader.dfy | `TarReader::Entry`, `each_entry`, `pos=`, `read`, `uname`/`gname`, `mode_symbolic` |
| `TarFix` | tarfix.dfy | `tarfix` |

Each operation has a partner, related to it by a lemma:
- The writer's state has a *logical* file: the file as it will read once the pool is written. `Writer.Logical` is the reference for every writer operation.
- `find_eof` is related to `Eof.LastAccepted`, the last accepted record.
- The header writer is related to the reader's decoder.
- `Octal.Format` is related to `Octal.Parse`.
- `mode_symbolic` is related to reading its permission string back.
- `tarfix` is related to a walk of the header positions it visits, `TarFix.Walk`, and to its input, by length, multiset and order.

## Model

| member | source | states |
|---|---|---|
| Bytes.RoundUp512 | lib/tarwriter.rb:162-165 | `size -= 1; size -= size % 512; size += 512` gives a multiple of 512 that is at least the size and less than 512 above it; size 0 gives 0 |
| Bytes.RoundUp512Least | lib/tarreader.rb:42-44 | that rounding is the least multiple of 512 not below the size |
| Bytes.RoundUp512Division | lib/tarwriter.rb:93 | add2's `((n + 511) / 512) * 512` is the same rounding |
| Bytes.RoundUp512Examples | research/debug1/tarfix.rb:30-33 | the rounding at sizes 0, 1, 511, 512, 513 and 1022 to 1025 |
| Bytes.Slice | lib/tarreader.rb:33 | `str[off, len]` is nil exactly when off is past the end; otherwise it holds min(len, size - off) bytes, the i-th being the string's byte at off + i, and for len > 0 and off inside the string it is what `io.read(len)` returns at off |
| Bytes.SliceAt | lib/tarwriter.rb:113 | `str[off, len]` with a negative offset counts from the end: nil exactly when that still falls before the start, else min(len, -off) bytes starting at size + off; `str[-1, len]` is the last byte, and nil on an empty string |
| Bytes.PackSpace | lib/tarwriter.rb:78 | `pack('A8')` gives exactly the width: the string truncated, or followed by spaces |
| Bytes.UnpackPackSpace | lib/tarwriter.rb:78 | `unpack('A')` gives back a string that `pack('A')` padded, when its last byte is not a NUL or a space |
| Bytes.PackNul | lib/tarwriter.rb:179 | `pack('a512')` gives exactly the width: a truncated string, or the string followed by NULs |
| Bytes.UnpackA | lib/tarwriter.rb:156 | `unpack('A*')` gives a prefix, strips only NULs and spaces, and keeps a last byte that is neither |
| Bytes.UnpackAPadded | lib/tarreader.rb:19 | `unpack('A')` removes any trailing NUL and space padding |
| Bytes.UnpackPackNul | lib/tarreader.rb:19 | a name the writer pads with `a100` unpacks back to itself when its last byte is not a NUL or space |
| Bytes.BlankIffPadding | lib/tarreader.rb:12 | a record is blank for `unpack('A512').first.empty?` iff every byte is a NUL or a space |
| Bytes.ReadAt | lib/tarreader.rb:11 | `io.read(n)` gives "" for n = 0, nil at end of file, otherwise the next bytes of the file, up to n and short only at the end |
| Bytes.WriteAt | lib/tarwriter.rb:174 | `io.write` leaves an empty write as a no-op; otherwise the file grows to cover the written bytes |
| Bytes.WriteAtBytes | lib/tarwriter.rb:94-95 | byte by byte, a write puts the new bytes at the position, keeps the old bytes elsewhere, and fills any hole with NULs |
| Bytes.WriteAtThen | lib/tarwriter.rb:94-95 | two consecutive writes are one write of their concatenation |
| Bytes.WriteAtSplit | lib/tarwriter.rb:174 | a write of two joined pieces is the write of the second after the write of the first |
| Octal.Format | lib/tarwriter.rb:68 | `sprintf("%011o", n)` gives octal digits, at least the width, exactly the width when the value fits, and their value is n |
| Octal.FormatLength | lib/tarwriter.rb:68 | a value below 8^k is formatted in at most k digits |
| Octal.ParseSkips | lib/tarreader.rb:20-25 | `to_i(8)` skips the leading white space and reads the longest run of octal digits that follows |
| Octal.ParseRange | lib/tarreader.rb:20-25 | `to_i(8)` is 0 when the text after the leading white space does not start with an octal digit, and a field of k bytes reads below 8^k |
| Octal.ParseFormat | lib/tarreader.rb:23-24 | `to_i(8)` reads back what `%0No` wrote, whatever non-digit follows |
| Octal.ParseUnpackA | lib/tarwriter.rb:156 | `unpack('A*')` before `to_i(8)` reads the same number as `to_i(8)` alone |
| Octal.ParseIgnoresNonDigits | lib/tarreader.rb:25 | trailing bytes that are not digits do not change `to_i(8)` |
| Octal.SkipBlanks | lib/tarreader.rb:20 | `to_i(8)` skips exactly the leading white space |
| Octal.DigitRun | lib/tarreader.rb:20 | `to_i(8)` reads the longest run of octal digits |
| Octal.Decimal | lib/tarreader.rb:52 | `Integer#to_s` gives decimal digits with no leading zero, and their value is n |
| Checksum.Blanked | lib/tarreader.rb:26-27 | `xbuf[148, 8] = ' ' * 8` keeps the bytes before 148 and after the field, and puts eight spaces in the field |
| Checksum.Prefix500 | lib/tarwriter.rb:155 | `buf[512 * i, 500]` holds min(500, size) bytes, each equal to the record's byte at the same index, and followed by the record's bytes from 500 on it gives back the whole record |
| Checksum.ReaderValidSum | lib/tarreader.rb:25-30 | the reader's test holds exactly when the record's bytes outside the field, plus 256 for the eight spaces, sum to the number in the field |
| Checksum.PrefixValidSum | research/debug1/tarfix.rb:20-26 | tarfix's test is the same sum over the first 500 bytes only, against the field with trailing NULs and spaces stripped |
| Checksum.BlankNotValid | lib/tarreader.rb:12-30 | a blank record never passes the reader's checksum |
| Checksum.ChecksAgreeOnZeroTail | lib/tarwriter.rb:155-160 | on a record whose last 12 bytes are NUL, the reader's 512-byte test and find_eof's 500-byte test agree |
| Checksum.ChecksDisagreeOnTail | lib/tarreader.rb:26-30 | setting a byte of the last 12 keeps a record valid for find_eof and tarfix but makes the reader reject it |
| Checksum.ReaderDetectsByteChange | lib/tarreader.rb:25-30 | any single changed byte outside the checksum field makes the reader's test fail |
| Header.Build | lib/tarwriter.rb:64-81 | header raises on a name of 100 bytes or more, and otherwise gives 500 bytes |
| Header.ConstantTexts | lib/tarwriter.rb:66-76 | `%07o` of 0664, 99 and 0 are the texts the header holds |
| Header.Layout | lib/tarwriter.rb:78-80 | name at 0, mode/uid/gid at 100, size at 124, mtime at 136, checksum at 148, the fixed fields from 156 |
| Header.FixedFields | lib/tarwriter.rb:66-77 | mode 0664, uid and gid 99, typeflag '0', empty linkname, magic "ustar\0", version "00", "nobody", devices 0, empty prefix, each at its offset |
| Header.NumberFieldParse | lib/tarwriter.rb:68-70 | a size or mtime below 8^12 reads back from its `a12` field, with or without `unpack('A*')` |
| Header.ChecksumFields | lib/tarwriter.rb:69 | the `A8` checksum field is eight spaces on the first pass, and six digits, NUL and space on the second |
| Header.Checksummed | lib/tarwriter.rb:86-89 | the two passes raise only on a long name and give 500 bytes |
| Header.SameOutsideChecksum | lib/tarwriter.rb:64-80 | two headers with different checksum arguments differ only in bytes 148..155 |
| Header.TwoPass | lib/tarwriter.rb:114-117 | the stored checksum is the first pass's sum, below 8^6; the passes differ only in the field; re-blanking the final header gives the first pass back; padded, it passes both checksum tests |
| Header.WrittenFields | lib/tarwriter.rb:114-117 | every field of the header add writes, and that it is valid for the reader and for find_eof |
| Writer.PureFlush | lib/tarwriter.rb:173-176 | `pure_flush` empties the pool into the file at the IO position; the logical file and the end position stay the same |
| Writer.BlockWrite | lib/tarwriter.rb:178-181 | `block_write` adds one record; the pool stays below 20 and is written as a whole 10240-byte block when it reaches 20 |
| Writer.BlockWriteLogical | lib/tarwriter.rb:178-181 | `block_write` adds its NUL-padded record to the logical file at End, `@io.pos + 512 * @pool.size` |
| Writer.JoinLength | lib/tarwriter.rb:174 | a pool of whole records joins to 512 bytes per record |
| Writer.Flush | lib/tarwriter.rb:183-188 | `flush` empties the pool by topping it up to 20 records; an empty pool is left alone; the IO position keeps its place in the blocking |
| Writer.FlushIsFilled | lib/tarwriter.rb:183-188 | flush's loop writes the pool plus NUL records up to 10240 bytes in one block |
| Writer.FlushLogical | lib/tarwriter.rb:183-188 | flushing adds only NUL records at End |
| Writer.Close | lib/tarwriter.rb:190-195 | `close` writes everything; End grows by at least two records and at most a block plus two records; the blocking is kept |
| Writer.CloseLogical | lib/tarwriter.rb:190-195 | closing adds only NUL records at End, at least two of them |
| Writer.WriteChunks | lib/tarwriter.rb:120-125 | add's `byteslice` loop moves End by the padded size of the rest of the content |
| Writer.WriteChunksLogical | lib/tarwriter.rb:120-125 | the chunks add the rest of the content, padded with NULs, at End |
| Writer.TakesAdd2 | lib/tarwriter.rb:110-113 | add hands the content to add2 exactly when it is longer than 0x380000 bytes or empty |
| Writer.Add2With | lib/tarwriter.rb:90-97 | add2 leaves the pool empty, and both `@pos` and the IO position after the padded content |
| Writer.DirectWrite | lib/tarwriter.rb:93-96 | after the flush, add2 writes the content with NULs up to the next record boundary, and the IO position and `@pos` both move to that boundary |
| Writer.Add2 | lib/tarwriter.rb:83-98 | add2 raises only on a long name, and returns the header's position End |
| Writer.Add2Logical | lib/tarwriter.rb:90-95 | add2 writes the header record and then the padded content at End |
| Writer.AddPooledWith | lib/tarwriter.rb:118-127 | the pooled path moves End past the member and keeps the blocking |
| Writer.AddPooled | lib/tarwriter.rb:114-128 | the pooled path raises only on a long name and returns End |
| Writer.AddPooledLogical | lib/tarwriter.rb:118-126 | the pooled path writes the same member at End |
| Writer.Add | lib/tarwriter.rb:109-128 | add raises exactly on a long name, before anything is written; otherwise it returns the header's offset and moves End by 512 + roundup(size); the blocking is kept unless the content goes through add2 |
| Writer.AddLogical | lib/tarwriter.rb:109-128 | whichever path it takes, add writes the header and the padded content at End |
| Writer.AddAppends | lib/tarwriter.rb:109-128 | on a stream that ends at End, add appends the member and leaves the earlier bytes unchanged |
| Writer.AddPathsAgree | lib/tarwriter.rb:110-113 | both paths of add produce the same logical file and End |
| Writer.Add2Misaligns | lib/tarwriter.rb:92 | add2 with empty content, from a block boundary, leaves the IO position inside a block |
| Writer.Open | lib/tarwriter.rb:34-54 | 'x' refuses an existing file, 'w' starts empty, 'a' keeps the file and starts where the corrected search Eof.FindEofAll puts it, and any other mode raises |
| Eof.ScanSlots | lib/tarwriter.rb:150-169 | `19.downto(0)` returns a slot of the window that passes the test |
| Eof.ScanWindows | lib/tarwriter.rb:140-170 | the window loop returns a record below its start that passes the test |
| Eof.EntryEnd | lib/tarwriter.rb:162-166 | the position find_eof moves to is on a record boundary, past the header, covers the size, and is less than a record beyond it |
| Eof.FindEof | lib/tarwriter.rb:136-171 | find_eof answers 0 or a multiple of 512 |
| Eof.LastAccepted | lib/tarwriter.rb:150-160 | the reference: the highest accepted record in a range, or none |
| Eof.ScanSlotsIsLastAccepted | lib/tarwriter.rb:150-169 | one window, scanned from slot 19 down, gives the reference over that window |
| Eof.ScanWindowsIsLastAccepted | lib/tarwriter.rb:140-170 | the window loop gives the reference over all whole windows |
| Eof.FindEofIsLastAccepted | lib/tarwriter.rb:136-171 | find_eof is the end of the entry at the last accepted record among those in whole windows, or 0 |
| Eof.FindEofIgnoresPartialWindow | lib/tarwriter.rb:137-139 | bytes past the last 10240 boundary do not change find_eof |
| Eof.FindEofShort | lib/tarwriter.rb:139-145 | a file shorter than one window gives 0 |
| Eof.FindEofZeros | lib/tarwriter.rb:136-171 | a file of NULs gives 0 |
| Eof.ZeroRecordNotHeader | lib/tarwriter.rb:151-152 | a record of NULs fails the magic test |
| Eof.WrittenHeaderLike | lib/tarwriter.rb:151-162 | every header add writes passes find_eof's test and reads its size back |
| Eof.FindEofMissesLastHeader | lib/tarwriter.rb:137-139 | find_eof as written ignores a final header past the last whole window, which the corrected search finds |
| Eof.MissedWrittenHeader | lib/tarwriter.rb:137-139 | a header written after a whole window of NULs is missed by find_eof and found by the correction |
| Eof.MissedHeaderExample | lib/tarwriter.rb:137-139 | the concrete file: 10240 NULs, the header for an empty file "a", 512 NULs; find_eof gives 0, the entry ends at 10752 |
| Eof.FindEofAll | lib/tarwriter.rb:136-171 | the corrected search answers 0 or a multiple of 512 |
| Eof.FindEofAllAgrees | lib/tarwriter.rb:136-171 | on a file of whole windows, the corrected search is find_eof |
| Eof.FindEofAllFindsLastHeader | lib/tarwriter.rb:136-171 | after a header followed by records that are not headers, the corrected search resumes after that header's content |
| Reader.Decode | lib/tarreader.rb:18-46 | a record decodes iff it is long enough and passes the 512-byte checksum; otherwise it raises EBADF exactly on a bad checksum and the short-record error on a short one; the size and blocksize relate as rounding; the ustar fields are present iff the magic matches |
| Reader.Fields | lib/tarreader.rb:19-45 | each field is read from its offset: name from 0, mode, uid, gid, size and mtime in octal from 100 to 148, typeflag at 156, linkname from 157, the six-byte magic at 257, and, exactly when the magic matches, uname, gname, devmajor, devminor and prefix from 265 to 500; `pos` is given; blocksize is the size rounded up |
| Reader.Record | lib/tarreader.rb:11 | `io.read(512)` gives a non-empty slice of the file, short only at the end |
| Reader.ReadEntry | lib/tarreader.rb:9-46 | Entry.new fails with nil only at or past the end of file; an entry starts after the position and within the file, and the next header is blocksize after it |
| Reader.Locate | lib/tarreader.rb:11-17 | there is no record exactly when the position is at or past the end of file; a header it finds is a non-blank record in the file, at or after the position |
| Reader.ReadEntryEof | lib/tarreader.rb:12-16 | the reader's end of archive is a blank record followed by end of file or by another blank record |
| Reader.UstarMagicLines | lib/tarreader.rb:34 | `/^ustar/` on the six-byte magic matches exactly when "ustar" starts the field or a line within it |
| Reader.ReadEntryHeader | lib/tarreader.rb:11-18 | the entry comes from the record at the position, or from the next one when that record is blank; its content starts right after |
| Reader.DecodeStep | lib/tarreader.rb:42-45 | decoding steps past the content: the next header is at `pos + blocksize` |
| Reader.EntryRead | lib/tarreader.rb:74-80 | `read` returns the content bytes when they are in the file, nil past the end, and leaves the file at `pos + blocksize` |
| Reader.ReadKeepsWalk | lib/tarreader.rb:74-80 | reading an entry's content leaves the file where the next header is read |
| Reader.EachEntry | lib/tarreader.rb:121-132 | each_entry ends normally exactly when Entry.new throws the end-of-archive mark where the walk stands after the last entry yielded, and fails with the exception Entry.new raises there |
| Reader.EachEntryChain | lib/tarreader.rb:121-132 | the i-th entry yielded is the one Entry.new reads where the walk stands after the entries before it, and the walk then stands past its content |
| Reader.EachEntryAdvances | lib/tarreader.rb:121-132 | each_entry yields entries at strictly increasing positions, all after the start and within the file |
| Reader.EachEntryStep | lib/tarreader.rb:121-132 | each_entry yields the entry read at the start first, and then what it yields from the next header on |
| Reader.SetPos | lib/tarreader.rb:104-119 | `pos=` moves to ipos iff the record there passes the checksum (or ipos is already the position), else stays; it raises on a negative position, at end of file and on a record too short for the field |
| Reader.SetPosThenRead | lib/tarreader.rb:104-119 | once `pos=` has moved, the next Entry.new takes its header from the record at ipos, which is neither the end of archive nor a checksum failure, and decodes it there |
| Reader.UName | lib/tarreader.rb:51-53 | without ustar fields, uname is the uid in decimal |
| Reader.GName | lib/tarreader.rb:55-57 | without ustar fields, gname is the gid in decimal |
| Reader.TypeChar | lib/tarreader.rb:61 | the type character is '-' for typeflag '0' or '1', 'l' for '2', 'd' for '5', and the typeflag itself otherwise |
| Reader.ModeSymbolic | lib/tarreader.rb:59-72 | mode_symbolic is ten characters: the type character, then for the bits 0400 down to 0001 in turn 'r', 'w', 'x', 'r', ... where the bit is set and '-' where it is clear |
| Reader.ModeSymbolicInverse | lib/tarreader.rb:62-70 | reading the nine permission characters back gives `mode & 0777` |
| Reader.LowBitsMod | lib/tarreader.rb:62-70 | the bits tested by the masks 0400..0001 sum to `mode % 512` |
| Reader.ConstantValues | lib/tarreader.rb:20-38 | the writer's constant fields decode to 0664, 99, 0, "nobody", empty names, and a ustar magic |
| Reader.DecodeLaidOut | lib/tarreader.rb:19-38 | a record laid out as the writer lays it out decodes to the written values |
| Reader.ReadWrittenHeader | lib/tarreader.rb:19-38 | header round trip: what add writes (padded to a record) decodes to the same name, size and mtime, with mode 0664, uid/gid 99, "nobody", typeflag '0' and magic "ustar\0" |
| Reader.WrittenModeSymbolic | lib/tarreader.rb:59-72 | every entry the writer makes lists as `-rw-rw-r--` |
| TarFix.BodySize | research/debug1/tarfix.rb:30-33 | the size read from a header is rounded up to whole records: a multiple of 512, at least the size and less than 512 above it |
| TarFix.EntryEnd | research/debug1/tarfix.rb:30-35 | an entry copied from a header at pos ends after pos, within the input, and a whole number of records after pos unless the input ends first |
| TarFix.Classify | research/debug1/tarfix.rb:6-13 | the loop leaves exactly at the end of the input; a block it drops is 512 NULs of the input; an entry it copies ends at EntryEnd |
| TarFix.ClassifyVerdicts | research/debug1/tarfix.rb:6-35 | every verdict in both directions: end of input; a whole block of NULs is dropped; a tail shorter than the checksum field crashes; a header that is not all NULs and fails the 500-byte checksum stops the run; any other header is copied, and the copy is exactly what ReadEntry reads, the input from the header to 512 + roundup(size) bytes on, as far as the input reaches |
| TarFix.Header | research/debug1/tarfix.rb:19-35 | at a block that is not all NULs: a crash exactly when the input is too short for the checksum field, a stop exactly when it is long enough and the checksum fails, a copy exactly when the checksum passes |
| TarFix.ReadEntry | research/debug1/tarfix.rb:30-35 | `ofp.write(blk); ofp.write(ifp.read(size))` writes the input from the header to EntryEnd, at least the header block |
| TarFix.WalkVisits | research/debug1/tarfix.rb:5-37 | the loop visits header positions from 0 on: each is where the previous dropped block or copied entry ends, the verdict at each is Classify's, only the last may stop the run, and a run that is not stopped ends exactly at the end of the input |
| TarFix.WalkStep | research/debug1/tarfix.rb:10-35 | after a dropped block or a copied entry the loop goes on from where it ends, further on in the input |
| TarFix.WalkLast | research/debug1/tarfix.rb:26-28 | a verdict that stops the run is the last position visited |
| TarFix.Fix | research/debug1/tarfix.rb:1-40 | the run follows the walk: its status is how the walk ends; its output is the entries the walk copies, in order, followed, when it completes, by one block of NULs per dropped block; nreset + nskip counts the dropped blocks and nskip those since the last header; a stop reports the last position visited. It also loses nothing: a completed run writes as many bytes as it read, the same multiset, the input with the dropped blocks taken out and then those blocks; a stopped run has written the input up to the stop with the dropped blocks taken out |
| TarFix.ZeroHeaderDropped | research/debug1/tarfix.rb:10-13 | a block of 512 NULs at a position the run visits is dropped: nothing of it is copied there and nreset + nskip is at least 1 |
| TarFix.HaltAtBadHeader | research/debug1/tarfix.rb:20-28 | a visited header that is not all NULs and fails the checksum is the last position visited, and the run ends there with exit status 1 |
| TarFix.DropsLength | research/debug1/tarfix.rb:10-13 | what is dropped is whole 512-byte blocks |
| TarFix.DropsKeepAppend | research/debug1/tarfix.rb:34-35 | copying bytes to the output keeps the input order |
| TarFix.Dropped | research/debug1/tarfix.rb:10-13 | dropping a NUL block moves it from the input to the blocks owed at the end |
| TarFix.DroppedOrder | research/debug1/tarfix.rb:10-12 | dropping a NUL block keeps the output equal to the input read so far with NUL blocks removed |
| TarFix.Copied | research/debug1/tarfix.rb:14-35 | copying an entry, with nskip folded into nreset, keeps every byte written or owed |
| TarFix.CopiedOrder | research/debug1/tarfix.rb:34-35 | copying an entry keeps the output equal to the input read so far with NUL blocks removed |
| TarFix.Finished | research/debug1/tarfix.rb:38-39 | writing the `nreset + nskip` owed NUL blocks at the end completes the output |

## Left out

- The IO objects themselves: opening files with their flags, `set_encoding`, `seek`, `close`, `IO#flush`, and passing an already open IO to `TarWriter.new` or `TarReader.new`. A file is its byte sequence, so a file is always seekable.
- The `open` class methods that yield and then close, and the command-line blocks of lib/tarwriter.rb and lib/tarreader.rb.
- `TarWriter::Folder`: it only dispatches to a directory or to a TarWriter and contains no archive logic.
- `Time.now`, the default mtime of `add`: mtime is a parameter.
- The `$DEBUG`/`$VERBOSE` messages and tarfix's `printf` progress lines, which only print.
- research/debug1/tardump.rb, research/feature1/tgzseek.rb and research/debug1/blkbound.rb. These are print-only diagnostic tools, a gzip reader, and a driver for the system `tar`; they are not part of this model.
- `String#to_i(8)`: a sign, a `0o` prefix and underscores between digits are not modelled. Header fields written by this code never contain them.
- Header.NumberFieldParse: sizes and mtimes of 8^12 or more are excluded. `%011o` then gives more than 12 digits, and `a12` truncates them.
- Eof.ScanSlots: the window read `buf = @io.read(10240)` is modelled as indexing the file's records directly. The bytes are the same because only whole windows are read.
- TarFix.Fix: `exit 1` and the `NoMethodError` on a short header are modelled as the statuses ChecksumAbort and Crashed. The output written before the stop is kept.
- TarFix.Fix: the block read for a copied entry is read a second time by ReadEntry rather than kept from the classification; the bytes are the same.
- Reader.EachEntry: the `yield` to the caller is modelled as the list of entries each_entry yields, and a raise as the outcome `Failed`. What the caller does with each entry is not modelled.
- Reader.Decode: a record cut short by the end of file raises in Ruby at the first field it lacks, with NoMethodError or ArgumentError. The model gives ShortRecord for both.
- Writer.Open: mode 'a' positions the writer with the corrected search Eof.FindEofAll, not with find_eof as written (see Findings). Eof.FindEofAllAgrees shows the two agree on files of whole windows.
- The end-to-end claim that the reader lists exactly the entries the writer added is not proved. The header round trip (Reader.ReadWrittenHeader) and the layout of each added member (Writer.AddAppends) are proved separately.

Two behaviours of the reader are modelled as the code has them, although the POSIX ustar format ends an archive with two records of 512 NUL bytes:
- A blank record, for the reader, is one whose bytes are all NULs or spaces (`unpack('A512').first.empty?`), not only all NULs.
- Reaching the end of the file where a header is expected, with no blank record first, raises `NoMethodError` (`nil.unpack`) instead of ending the listing normally.

## Findings

| source | as written | input that shows it | evidently intended | confidence | as-written member | corrected member |
|---|---|---|---|---|---|---|
| lib/tarwriter.rb:137-139 | `base -= base % 10240` makes find_eof scan only whole 10240-byte windows, so a header in the records after the last whole window is never looked at | a file of 10240 NULs, then the header add writes for an empty file "a" at time 0, then 512 NULs (11264 bytes): find_eof answers 0, so append mode would overwrite the entry, which ends at 10752 | resume after the last valid header anywhere in the file | not executed | Eof.FindEof, Eof.MissedHeaderExample, Eof.FindEofMissesLastHeader | Eof.FindEofAll, Eof.FindEofAllFindsLastHeader, Eof.FindEofAllAgrees |

Such files do arise from the writer itself. `add2` flushes a partial pool (lib/tarwriter.rb:92), which leaves the IO position inside a block (Writer.Add2Misaligns). The archive can then end past a 10240 boundary. `Writer.Open` in mode 'a' uses the corrected search.
