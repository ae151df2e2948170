/** TarWriter (lib/tarwriter.rb): records are collected in a pool of up to
    20 and written to the file a pool at a time, so that a well-formed
    archive grows in blocks of 10240 bytes. The state is the file's bytes,
    the IO position, the pool and the `pos` attribute; the file is opened
    and closed by the caller. */
module Writer {
  import opened Bytes
  import opened Errors
  import Header
  import Eof

  /** `@@bigsize`: content above this size takes add2. */
  const BIGSIZE: nat := 0x380000

  datatype Writer = Writer(file: seq<byte>, io: nat, pool: seq<seq<byte>>, pos: nat)

  /** `@pool.join`. */
  function Join(pool: seq<seq<byte>>): seq<byte>
  {
    if |pool| == 0 then [] else Join(pool[..|pool| - 1]) + pool[|pool| - 1]
  }

  lemma JoinAppend(pool: seq<seq<byte>>, rec: seq<byte>)
    ensures Join(pool + [rec]) == Join(pool) + rec
  {
    assert (pool + [rec])[..|pool|] == pool;
  }

  /** A pool of whole records, never full between calls. */
  predicate Valid(w: Writer)
  {
    |w.pool| < 20 && forall i :: 0 <= i < |w.pool| ==> |w.pool[i]| == 512
  }

  lemma {:induction false} JoinLength(pool: seq<seq<byte>>)
    requires forall i :: 0 <= i < |pool| ==> |pool[i]| == 512
    ensures |Join(pool)| == 512 * |pool|
  {
    if |pool| > 0 {
      JoinLength(pool[..|pool| - 1]);
    }
  }

  /** The file as it will read once the pool is written out. */
  function Logical(w: Writer): seq<byte>
  {
    WriteAt(w.file, w.io, Join(w.pool))
  }

  /** Where the next record goes: `@io.pos + 512 * @pool.size`. */
  function End(w: Writer): nat
  {
    w.io + 512 * |w.pool|
  }

  /** A content padded with NULs to whole records. */
  function Padded(content: seq<byte>): (r: seq<byte>)
    ensures |r| == RoundUp512(|content|) && r[..|content|] == content
  {
    content + Zeros(RoundUp512(|content|) - |content|)
  }

  // ---------------------------------------------------------------------------
  // The pool

  /** TarWriter#pure_flush: write the pool at the IO position and empty it. */
  function PureFlush(w: Writer): (r: Writer)
    requires Valid(w)
    ensures Valid(r) && r.pool == [] && r.pos == w.pos
    ensures Logical(r) == Logical(w) && End(r) == End(w) && r.file == Logical(w)
  {
    JoinLength(w.pool);
    Writer(WriteAt(w.file, w.io, Join(w.pool)), w.io + |Join(w.pool)|, [], w.pos)
  }

  /** TarWriter#block_write: pad to a record with NULs (truncating a longer
      string), add it to the pool, and write the pool out when it holds 20. */
  function BlockWrite(w: Writer, s: seq<byte>): (r: Writer)
    requires Valid(w)
    ensures Valid(r) && r.pos == w.pos && End(r) == End(w) + 512
    ensures |w.pool| < 19 ==> r.io == w.io && |r.pool| == |w.pool| + 1
    ensures |w.pool| == 19 ==> r.io == w.io + 10240 && r.pool == []
    ensures r.io % 10240 == w.io % 10240
  {
    var pool := w.pool + [PackNul(s, 512)];
    JoinLength(pool);
    if |pool| >= 20 then
      Writer(WriteAt(w.file, w.io, Join(pool)), w.io + |Join(pool)|, [], w.pos)
    else
      Writer(w.file, w.io, pool, w.pos)
  }

  /** What block_write adds to the file is the record, at End. */
  lemma BlockWriteLogical(w: Writer, s: seq<byte>)
    requires Valid(w)
    ensures Logical(BlockWrite(w, s)) == WriteAt(Logical(w), End(w), PackNul(s, 512))
  {
    var rec := PackNul(s, 512);
    BlockWriteJoined(w, s);
    JoinAppend(w.pool, rec);
    JoinLength(w.pool);
    WriteAtSplit(w.file, w.io, Join(w.pool), Logical(w), End(w), rec, Logical(BlockWrite(w, s)));
  }

  lemma BlockWriteJoined(w: Writer, s: seq<byte>)
    requires Valid(w)
    ensures Logical(BlockWrite(w, s)) == WriteAt(w.file, w.io, Join(w.pool + [PackNul(s, 512)]))
  {
  }

  /** TarWriter#flush: fill the pool with empty records until it is written
      out; nothing happens to an empty pool. */
  function Flush(w: Writer): (r: Writer)
    requires Valid(w)
    ensures Valid(r) && r.pool == [] && r.pos == w.pos && r.io == End(r)
    ensures |w.pool| == 0 ==> r == w
    ensures |w.pool| > 0 ==> End(r) == End(w) + 512 * (20 - |w.pool|)
    ensures End(w) <= End(r) && r.io % 10240 == w.io % 10240
    decreases if |w.pool| == 0 then 0 else 20 - |w.pool|
  {
    if |w.pool| == 0 then w else Flush(BlockWrite(w, []))
  }

  /** Flush in one step: a non-empty pool topped up with NUL records to a
      whole block of 10240 bytes and written at the IO position. */
  function Filled(w: Writer): (r: Writer)
    requires Valid(w)
  {
    if |w.pool| == 0 then w
    else Writer(WriteAt(w.file, w.io, Block(w)), w.io + 10240, [], w.pos)
  }

  /** The block flush writes: the pool and then NULs, 10240 bytes in all. */
  function Block(w: Writer): (b: seq<byte>)
    requires Valid(w)
    ensures |b| == 10240
  {
    JoinLength(w.pool);
    Join(w.pool) + Zeros(10240 - 512 * |w.pool|)
  }

  /** flush's loop writes exactly that block. */
  lemma {:induction false} FlushIsFilled(w: Writer)
    requires Valid(w)
    ensures Flush(w) == Filled(w)
    decreases if |w.pool| == 0 then 0 else 20 - |w.pool|
  {
    if |w.pool| > 0 {
      var w1 := BlockWrite(w, []);
      FlushIsFilled(w1);
      FilledStep(w);
    }
  }

  /** One more empty record leaves the filled block as it was. */
  lemma FilledStep(w: Writer)
    requires Valid(w) && |w.pool| > 0
    ensures Filled(BlockWrite(w, [])) == Filled(w)
  {
    var w1 := BlockWrite(w, []);
    var z := PackNul([], 512);
    var n := |w.pool|;
    assert z == Zeros(512);
    JoinAppend(w.pool, z);
    JoinLength(w.pool);
    if n < 19 {
      assert w1 == Writer(w.file, w.io, w.pool + [z], w.pos);
      assert 10240 - 512 * (n + 1) == (10240 - 512 * n) - 512;
      PadStep(Join(w.pool), 10240 - 512 * n);
      assert Block(w1) == Block(w);
    } else {
      assert Block(w) == Join(w.pool) + Zeros(512);
      assert w1 == Writer(WriteAt(w.file, w.io, Join(w.pool + [z])), w.io + 10240, [], w.pos);
    }
  }

  lemma PadStep(j: seq<byte>, m: nat)
    requires m >= 512
    ensures (j + Zeros(512)) + Zeros(m - 512) == j + Zeros(m)
  {
    ZerosAppend(512, m - 512);
  }

  /** Flushing adds NUL records at End, and nothing else. */
  lemma FlushLogical(w: Writer)
    requires Valid(w)
    ensures Flush(w).file == WriteAt(Logical(w), End(w), Zeros(Flush(w).io - End(w)))
  {
    FlushIsFilled(w);
    FilledLogical(w);
  }

  lemma FilledLogical(w: Writer)
    requires Valid(w)
    ensures End(w) <= Filled(w).io
    ensures Filled(w).file == WriteAt(Logical(w), End(w), Zeros(Filled(w).io - End(w)))
  {
    JoinLength(w.pool);
    if |w.pool| > 0 {
      var k := 10240 - 512 * |w.pool|;
      assert Filled(w).io - End(w) == k;
      assert Block(w) == Join(w.pool) + Zeros(k);
      WriteAtSplit(w.file, w.io, Join(w.pool), Logical(w), End(w), Zeros(k), Filled(w).file);
    }
  }

  /** One turn of flush's loop: a record of NULs before the rest. */
  lemma FlushStep(w: Writer, w1: Writer, f: seq<byte>, e: nat)
    requires Valid(w) && w1 == BlockWrite(w, []) && End(w1) <= e
    requires f == WriteAt(Logical(w1), End(w1), Zeros(e - End(w1)))
    ensures f == WriteAt(Logical(w), End(w), Zeros(e - End(w)))
  {
    EmptyRecord(w);
    ZerosThen(Logical(w), End(w), Logical(w1), End(w1), f, e);
  }

  /** A record of NULs, then NULs up to e2, is NULs from e0 up to e2. */
  lemma ZerosThen(L0: seq<byte>, e0: nat, L1: seq<byte>, e1: nat, L2: seq<byte>, e2: nat)
    requires e1 == e0 + 512 && e1 <= e2
    requires L1 == WriteAt(L0, e0, Zeros(512)) && L2 == WriteAt(L1, e1, Zeros(e2 - e1))
    ensures L2 == WriteAt(L0, e0, Zeros(e2 - e0))
  {
    WriteAtChain(L0, e0, Zeros(512), L1, e1, Zeros(e2 - e1), L2);
    ZerosAppend(512, e2 - e1);
  }

  /** block_write('') adds a record of NULs. */
  lemma EmptyRecord(w: Writer)
    requires Valid(w)
    ensures Logical(BlockWrite(w, [])) == WriteAt(Logical(w), End(w), Zeros(512))
  {
    BlockWriteLogical(w, []);
    assert PackNul([], 512) == Zeros(512);
  }

  /** TarWriter#close: two empty records, then flush; everything has reached
      the file, which ends on a block boundary when the IO position started
      on one. */
  function Close(w: Writer): (r: Writer)
    requires Valid(w)
    ensures Valid(r) && r.pool == [] && r.file == Logical(r) && r.io == End(r)
    ensures End(w) + 1024 <= End(r) <= End(w) + 10752
    ensures r.io % 10240 == w.io % 10240
  {
    Flush(BlockWrite(BlockWrite(w, []), []))
  }

  /** Closing adds NUL records at End, at least two. */
  lemma CloseLogical(w: Writer)
    requires Valid(w)
    ensures Close(w).file == WriteAt(Logical(w), End(w), Zeros(Close(w).io - End(w)))
  {
    var w1 := BlockWrite(w, []);
    var w2 := BlockWrite(w1, []);
    CloseIsFilled(w, w1, w2);
    FilledLogical(w2);
    CloseSteps(w, w1, w2, Filled(w2).file, Filled(w2).io);
  }

  lemma CloseIsFilled(w: Writer, w1: Writer, w2: Writer)
    requires Valid(w) && w1 == BlockWrite(w, []) && w2 == BlockWrite(w1, [])
    ensures Valid(w2) && Close(w) == Filled(w2)
  {
    FlushIsFilled(w2);
  }

  lemma CloseSteps(w: Writer, w1: Writer, w2: Writer, f: seq<byte>, e: nat)
    requires Valid(w) && w1 == BlockWrite(w, []) && w2 == BlockWrite(w1, []) && End(w2) <= e
    requires f == WriteAt(Logical(w2), End(w2), Zeros(e - End(w2)))
    ensures f == WriteAt(Logical(w), End(w), Zeros(e - End(w)))
  {
    FlushStep(w1, w2, f, e);
    FlushStep(w, w1, f, e);
  }

  // ---------------------------------------------------------------------------
  // Adding a file

  /** The bytes one added file occupies: its header padded to a record, then
      its content padded to whole records. */
  function Member(hdr: seq<byte>, content: seq<byte>): (r: seq<byte>)
    requires |hdr| == Header.HEADER_SIZE
    ensures |r| == 512 + RoundUp512(|content|) && r[..500] == hdr && r[512..512 + |content|] == content
  {
    PackNul(hdr, 512) + Padded(content)
  }

  /** Whether add hands the content to add2: above 0x380000 bytes (line
      110), or when `bcontent[bcontent.size-1, 1].to_s` is empty (line 113),
      which happens exactly for empty content: the offset -1 falls before
      the start and gives nil. */
  function TakesAdd2(content: seq<byte>): (b: bool)
    ensures b <==> |content| > BIGSIZE || |content| == 0
  {
    |content| > BIGSIZE || ToS(SliceAt(content, |content| - 1, 1)) == []
  }

  lemma RoundUpStep(n: nat)
    requires n > 512
    ensures RoundUp512(n) == 512 + RoundUp512(n - 512)
  {
    RoundUp512Least(n - 512, RoundUp512(n) - 512);
    RoundUp512Least(n, RoundUp512(n - 512) + 512);
  }

  /** One chunk, from ofs up to next, takes one record of the padded size. */
  lemma ChunkRound(len: nat, ofs: nat, next: nat)
    requires ofs < len && next == Min(ofs + 512, len)
    ensures RoundUp512(len - ofs) == 512 + RoundUp512(len - next)
  {
    if len - ofs > 512 {
      RoundUpStep(len - ofs);
    } else {
      RoundUp512Least(len - ofs, 512);
      assert RoundUp512(0) == 0;
    }
  }

  /** The first chunk of a content and the padded rest make the padded
      content. */
  lemma PaddedStep(c: seq<byte>)
    requires |c| > 0
    ensures Padded(c) == PackNul(c[..Min(512, |c|)], 512) + Padded(c[Min(512, |c|)..])
  {
    if |c| <= 512 {
      RoundUp512Least(|c|, 512);
      assert RoundUp512(|c|) == 512;
      assert c[..|c|] == c;
      assert c[|c|..] == [];
      assert RoundUp512(0) == 0;
      assert Padded([]) == [];
    } else {
      RoundUpStep(|c|);
      var rest := c[512..];
      assert c == c[..512] + rest;
      assert Padded(c) == c[..512] + (rest + Zeros(RoundUp512(|rest|) - |rest|));
    }
  }

  /** The chunk block_write gets at offset ofs, and what is left. */
  lemma PaddedChunk(content: seq<byte>, ofs: nat)
    requires ofs < |content|
    ensures var next := Min(ofs + 512, |content|);
      Padded(content[ofs..]) == PackNul(content[ofs..next], 512) + Padded(content[next..])
  {
    var c := content[ofs..];
    PaddedStep(c);
    assert c[..Min(512, |c|)] == content[ofs..Min(ofs + 512, |content|)];
    assert c[Min(512, |c|)..] == content[Min(ofs + 512, |content|)..];
  }

  /** The loop of add: `byteslice(ofs, 512)` until it is empty, each chunk
      through block_write. */
  function WriteChunks(w: Writer, content: seq<byte>, ofs: nat): (r: Writer)
    requires Valid(w) && ofs <= |content|
    ensures Valid(r) && r.pos == w.pos
    ensures End(r) == End(w) + RoundUp512(|content| - ofs)
    ensures r.io % 10240 == w.io % 10240
    decreases |content| - ofs
  {
    if ofs >= |content| then
      assert RoundUp512(0) == 0;
      w
    else
      var next := Min(ofs + 512, |content|);
      ChunkRound(|content|, ofs, next);
      WriteChunks(BlockWrite(w, content[ofs..next]), content, next)
  }

  /** The chunks add the padded rest of the content at End. */
  lemma {:induction false} WriteChunksLogical(w: Writer, content: seq<byte>, ofs: nat)
    requires Valid(w) && ofs <= |content|
    ensures Logical(WriteChunks(w, content, ofs)) == WriteAt(Logical(w), End(w), Padded(content[ofs..]))
    decreases |content| - ofs
  {
    if ofs >= |content| {
      assert content[ofs..] == [];
      assert RoundUp512(0) == 0;
      assert Padded([]) == [];
    } else {
      var next := Min(ofs + 512, |content|);
      var chunk := content[ofs..next];
      var w1 := BlockWrite(w, chunk);
      WriteChunksLogical(w1, content, next);
      BlockWriteLogical(w, chunk);
      PaddedChunk(content, ofs);
      WriteAtChain(Logical(w), End(w), PackNul(chunk, 512), Logical(w1), End(w1), Padded(content[next..]),
        Logical(WriteChunks(w1, content, next)));
    }
  }

  /** TarWriter#add2 once the header `hdr` is made: the header through the
      pool, the pool written out, then the content and its padding straight
      to the file. */
  function Add2With(w: Writer, hdr: seq<byte>, content: seq<byte>): (r: Writer)
    requires Valid(w) && |hdr| == Header.HEADER_SIZE
    ensures Valid(r) && r.pool == [] && r.pos == r.io && r.io == End(w) + 512 + RoundUp512(|content|)
  {
    DirectWrite(PureFlush(BlockWrite(w, hdr)), content)
  }

  /** The second half of add2, on the flushed writer: `@io.write(str)`,
      then the NULs up to the next record. */
  function DirectWrite(w1: Writer, content: seq<byte>): (r: Writer)
    ensures r.file == WriteAt(w1.file, w1.io, Padded(content))
    ensures r.pool == [] && r.pos == r.io && r.io == w1.io + RoundUp512(|content|)
  {
    var fill := RoundUp512(|content|) - |content|;
    var io := w1.io + |content| + fill;
    WriteAtThen(w1.file, w1.io, content, Zeros(fill));
    Writer(WriteAt(WriteAt(w1.file, w1.io, content), w1.io + |content|, Zeros(fill)), io, [], io)
  }

  /** TarWriter#add2: make the header (the only failure), then write. The
      result is the position of the header. */
  function Add2(w: Writer, name: seq<byte>, content: seq<byte>, time: nat): (r: Result<(Writer, nat)>)
    requires Valid(w)
    ensures r.Raise? <==> |name| >= 100
    ensures r.Raise? ==> r.error == NameTooLong
    ensures r.Ok? ==> r.value.1 == End(w)
  {
    var hdr :- Header.Checksummed(name, |content|, time);
    Ok((Add2With(w, hdr, content), End(w)))
  }

  /** The small path of TarWriter#add once the header is made: the header
      and then the content chunks through the pool. */
  function AddPooledWith(w: Writer, hdr: seq<byte>, content: seq<byte>): (r: Writer)
    requires Valid(w) && |hdr| == Header.HEADER_SIZE
    ensures Valid(r) && r.pos == r.io && End(r) == End(w) + 512 + RoundUp512(|content|)
    ensures r.io % 10240 == w.io % 10240
  {
    var w2 := WriteChunks(BlockWrite(w, hdr), content, 0);
    w2.(pos := w2.io)
  }

  function AddPooled(w: Writer, name: seq<byte>, content: seq<byte>, time: nat): (r: Result<(Writer, nat)>)
    requires Valid(w)
    ensures r.Raise? <==> |name| >= 100
    ensures r.Ok? ==> r.value.1 == End(w)
  {
    var hdr :- Header.Checksummed(name, |content|, time);
    Ok((AddPooledWith(w, hdr, content), End(w)))
  }

  /** TarWriter#add: the header's position, and the writer with End moved
      past the new member; the small path keeps the IO position's place in
      the 10240-byte blocking. */
  function Add(w: Writer, name: seq<byte>, content: seq<byte>, time: nat): (r: Result<(Writer, nat)>)
    requires Valid(w)
    ensures r.Raise? <==> |name| >= 100
    ensures r.Raise? ==> r.error == NameTooLong
    ensures r.Ok? ==> var (w', recpos) := r.value;
      Valid(w') && w'.pos == w'.io && recpos == End(w) &&
      End(w') == End(w) + 512 + RoundUp512(|content|)
    ensures r.Ok? && !TakesAdd2(content) ==> r.value.0.io % 10240 == w.io % 10240
    ensures r.Ok? && TakesAdd2(content) ==> r.value.0.pool == []
  {
    if TakesAdd2(content) then Add2(w, name, content, time)
    else AddPooled(w, name, content, time)
  }

  /** The member add2 appends: header record, then the padded content. */
  lemma Add2Logical(w: Writer, hdr: seq<byte>, content: seq<byte>)
    requires Valid(w) && |hdr| == Header.HEADER_SIZE
    ensures Add2With(w, hdr, content).file == WriteAt(Logical(w), End(w), Member(hdr, content))
  {
    var w0 := BlockWrite(w, hdr);
    var w1 := PureFlush(w0);
    BlockWriteLogical(w, hdr);
    assert w1.file == Logical(w0) && w1.io == End(w0);
    WriteAtChain(Logical(w), End(w), PackNul(hdr, 512), w1.file, w1.io, Padded(content), Add2With(w, hdr, content).file);
  }

  /** The member the small path appends is the same. */
  lemma AddPooledLogical(w: Writer, hdr: seq<byte>, content: seq<byte>)
    requires Valid(w) && |hdr| == Header.HEADER_SIZE
    ensures Logical(AddPooledWith(w, hdr, content)) == WriteAt(Logical(w), End(w), Member(hdr, content))
  {
    var w1 := BlockWrite(w, hdr);
    var w2 := WriteChunks(w1, content, 0);
    BlockWriteLogical(w, hdr);
    WriteChunksLogical(w1, content, 0);
    assert content[0..] == content;
    WriteAtChain(Logical(w), End(w), PackNul(hdr, 512), Logical(w1), End(w1), Padded(content), Logical(w2));
  }

  /** Whichever path it takes, add writes the file's header and padded
      content at End, the position it returns. */
  lemma AddLogical(w: Writer, name: seq<byte>, content: seq<byte>, time: nat)
    requires Valid(w) && |name| < 100
    ensures Add(w, name, content, time).Ok?
    ensures Logical(Add(w, name, content, time).value.0) ==
      WriteAt(Logical(w), End(w), Member(Header.Checksummed(name, |content|, time).value, content))
  {
    var hdr := Header.Checksummed(name, |content|, time).value;
    if TakesAdd2(content) {
      Add2Logical(w, hdr, content);
    } else {
      AddPooledLogical(w, hdr, content);
    }
  }

  /** On a stream that ends where the next record goes (as after opening
      with 'w' or 'x', or after any add to such a stream), add appends the
      member and changes nothing before it. */
  lemma AddAppends(w: Writer, name: seq<byte>, content: seq<byte>, time: nat)
    requires Valid(w) && |name| < 100 && |Logical(w)| == End(w)
    ensures Add(w, name, content, time).Ok?
    ensures var w' := Add(w, name, content, time).value.0;
      Logical(w') == Logical(w) + Member(Header.Checksummed(name, |content|, time).value, content) &&
      |Logical(w')| == End(w')
  {
    AddLogical(w, name, content, time);
    var m := Member(Header.Checksummed(name, |content|, time).value, content);
    WriteAtEnd(Logical(w), m);
  }

  /** Both paths of add append the same bytes; only how much of them has
      reached the file, and where the IO position is, differ. */
  lemma AddPathsAgree(w: Writer, hdr: seq<byte>, content: seq<byte>)
    requires Valid(w) && |hdr| == Header.HEADER_SIZE
    ensures Logical(Add2With(w, hdr, content)) == Logical(AddPooledWith(w, hdr, content))
    ensures End(Add2With(w, hdr, content)) == End(AddPooledWith(w, hdr, content))
  {
    Add2Logical(w, hdr, content);
    AddPooledLogical(w, hdr, content);
  }

  lemma ShiftMod(a: nat, r: nat)
    requires a % 10240 == 0 && r < 10240
    ensures (a + r) % 10240 == r
  {
    var k := a / 10240;
    assert a == 10240 * k;
  }

  /** add2 with an empty content breaks the 10240-byte blocking: from a
      position on a block boundary with a partial pool (or none), the IO
      position ends up inside a block. */
  lemma Add2Misaligns(w: Writer, hdr: seq<byte>)
    requires Valid(w) && |hdr| == Header.HEADER_SIZE && w.io % 10240 == 0 && |w.pool| < 19
    ensures Add2With(w, hdr, []).io % 10240 == 512 * (|w.pool| + 1)
  {
    assert RoundUp512(0) == 0;
    ShiftMod(w.io, 512 * (|w.pool| + 1));
  }

  // ---------------------------------------------------------------------------
  // Opening

  /** TarWriter#initialize on a file name: `existing` is the file's content
      when it exists. Mode 'x' refuses an existing file, 'w' truncates, and
      'a' keeps the file and positions at the end of its last entry (by the
      corrected search of find_eof, see Eof.FindEofAll). */
  function Open(mode: string, existing: Option<seq<byte>>): (r: Result<Writer>)
    ensures r.Raise? <==> (mode != "x" && mode != "a" && mode != "w") || (mode == "x" && existing.Some?)
    ensures r.Raise? && mode == "x" ==> r.error == FileExists
    ensures r.Raise? && mode != "x" ==> r.error == UnsupportedMode
    ensures r.Ok? ==> Valid(r.value) && r.value.pool == [] && r.value.pos == r.value.io
    ensures r.Ok? && mode != "a" ==> r.value.file == [] && r.value.io == 0
    ensures r.Ok? && mode == "a" ==> r.value.file == (if existing.Some? then existing.value else [])
    ensures r.Ok? && mode == "a" ==> r.value.io == Eof.FindEofAll(r.value.file)
  {
    if mode == "x" then
      if existing.Some? then Raise(FileExists) else Ok(Writer([], 0, [], 0))
    else if mode == "a" then
      var file := if existing.Some? then existing.value else [];
      var at := Eof.FindEofAll(file);
      Ok(Writer(file, at, [], at))
    else if mode == "w" then Ok(Writer([], 0, [], 0))
    else Raise(UnsupportedMode)
  }
}
