/** research/debug1/tarfix.rb: a filter that repairs an archive whose
    entries are separated by blocks of NULs. It walks the input a header at
    a time, drops each all-NUL block found where a header should be, copies
    each entry (header and padded content) in order, and writes the dropped
    blocks back at the end. The input and output files are byte sequences;
    the progress messages are left out. */
module TarFix {
  import opened Bytes
  import opened Checksum
  import Octal

  /** How the filter stops: at the end of the input; with exit status 1 at
      a header whose checksum fails; or with an exception (`nil.unpack`) at
      a header too short to reach the checksum field. */
  datatype Status = Completed | ChecksumAbort | Crashed

  /** What was written, the two counters, how the filter stopped, and the
      input position it stopped at (the end of the input, or the start of
      the offending header). */
  datatype Outcome = Outcome(out: seq<byte>, nreset: nat, nskip: nat, status: Status, at: nat)

  /** `zeroblk`. */
  predicate IsZeroBlock(blk: seq<byte>) { blk == Zeros(512) }

  /** The size a header announces, rounded up to whole records:
      `hdr[124, 12].unpack('A*').first.to_i(8)`, then `size -= 1;
      size -= size % 512; size += 512`. */
  function BodySize(hdr: seq<byte>): (r: nat)
    requires |hdr| >= CHKSUM_OFFSET
    ensures r % 512 == 0
    ensures var size := Octal.Parse(UnpackA(hdr[124..136])); size <= r < size + 512
  {
    RoundUp512(Octal.Parse(UnpackA(hdr[124..136])))
  }

  /** `kept` is `input` with some blocks of 512 NULs taken out and
      everything else left in its order. */
  predicate DropsZeroBlocks(kept: seq<byte>, input: seq<byte>)
    decreases |kept| + |input|
  {
    kept == input ||
    (|input| >= 512 && IsZeroBlock(input[|input| - 512..]) && DropsZeroBlocks(kept, input[..|input| - 512])) ||
    (|kept| > 0 && |input| > 0 && kept[|kept| - 1] == input[|input| - 1] &&
     DropsZeroBlocks(kept[..|kept| - 1], input[..|input| - 1]))
  }

  /** What is taken out is whole blocks. */
  lemma {:induction false} DropsLength(kept: seq<byte>, input: seq<byte>)
    requires DropsZeroBlocks(kept, input)
    ensures |kept| <= |input| && (|input| - |kept|) % 512 == 0
    decreases |kept| + |input|
  {
    if kept == input {
    } else if |input| >= 512 && IsZeroBlock(input[|input| - 512..]) && DropsZeroBlocks(kept, input[..|input| - 512]) {
      DropsLength(kept, input[..|input| - 512]);
    } else {
      DropsLength(kept[..|kept| - 1], input[..|input| - 1]);
    }
  }

  /** Bytes copied to both sides keep the relation. */
  lemma {:induction false} DropsKeepAppend(kept: seq<byte>, input: seq<byte>, e: seq<byte>)
    requires DropsZeroBlocks(kept, input)
    ensures DropsZeroBlocks(kept + e, input + e)
    decreases |e|
  {
    if |e| > 0 {
      var e' := e[..|e| - 1];
      DropsKeepAppend(kept, input, e');
      assert (kept + e)[..|kept + e| - 1] == kept + e';
      assert (input + e)[..|input + e| - 1] == input + e';
    } else {
      assert kept + e == kept && input + e == input;
    }
  }

  /** The loop's variables: what has been written, `nreset`, `nskip`, the
      input position, and the bytes owed for the dropped blocks. */
  datatype Scan = Scan(out: seq<byte>, nreset: nat, nskip: nat, pos: nat, owed: nat)

  /** What a pass of the loop keeps: every byte read so far is either
      written or owed as a dropped NUL, and nothing but copying has
      happened while no block was dropped. */
  predicate Inv(input: seq<byte>, s: Scan)
  {
    s.pos <= |input| && s.owed == 512 * (s.nreset + s.nskip) &&
    |s.out| + s.owed == s.pos &&
    multiset(s.out) + multiset(Zeros(s.owed)) == multiset(input[..s.pos]) &&
    (s.nreset + s.nskip == 0 ==> s.out == input[..s.pos]) &&
    DropsZeroBlocks(s.out, input[..s.pos])
  }

  /** What a run that stops at `at` with `status` promises about the block
      there. */
  predicate StoppedAt(input: seq<byte>, at: nat, status: Status)
  {
    at < |input| &&
    match status
    case Completed => false
    case Crashed => |input| - at < CHKSUM_OFFSET
    case ChecksumAbort =>
      !IsZeroBlock(input[at..Min(at + 512, |input|)]) &&
      !PrefixValid(input[at..Min(at + 512, |input|)])
  }

  /** What the block at a header position makes the loop do: leave at the
      end of the input, drop an all-NUL block, crash on a header too short
      to reach the checksum field, stop on a failing checksum, or copy the
      entry, which runs up to `end`. */
  datatype Verdict = AtEnd | ZeroBlock | Short | BadChecksum | Entry(end: nat)

  /** The block `ifp.read(512)` returns at a position before the end. */
  function BlockAt(input: seq<byte>, pos: nat): (blk: seq<byte>)
    requires pos < |input|
    ensures 0 < |blk| <= 512 && ReadAt(input, pos, 512) == Some(blk)
  {
    input[pos..Min(pos + 512, |input|)]
  }

  /** Lines 6-35 without the counters: `ifp.read(512)`, the comparison
      with `zeroblk`, then the header. Which verdict it gives, and when, is
      stated by ClassifyVerdicts. */
  function Classify(input: seq<byte>, pos: nat): (v: Verdict)
    requires pos <= |input|
    ensures v.AtEnd? <==> pos == |input|
    ensures v.ZeroBlock? ==> pos + 512 <= |input| && IsZeroBlock(input[pos..pos + 512])
    ensures v.Entry? ==> pos + CHKSUM_OFFSET <= |input| && v.end == EntryEnd(input, pos)
  {
    var read := ReadAt(input, pos, 512);
    if read.None? then AtEnd
    else if IsZeroBlock(read.value) then ZeroBlock
    else Header(input, pos, read.value)
  }

  /** Where the entry whose header is at `pos` ends: after the header block
      and the padded content it announces, or at the end of the input, and
      so a whole number of records after the header unless the input ends
      first. */
  function EntryEnd(input: seq<byte>, pos: nat): (end: nat)
    requires pos + CHKSUM_OFFSET <= |input|
    ensures pos < end <= |input|
    ensures end == |input| || (end - pos) % 512 == 0
  {
    var hdr := Prefix500(BlockAt(input, pos));
    assert |hdr| >= CHKSUM_OFFSET;
    var n := BodySize(hdr);
    AlignedAfter(0, n);
    Min(pos + 512 + n, |input|)
  }

  /** Lines 19-35 at a block that is not all NULs: the header is the
      block's first 500 bytes; a header shorter than the checksum field
      crashes the run (`nil.unpack`), a failing checksum stops it, and
      otherwise the header block and the padded content after it are
      copied. */
  function Header(input: seq<byte>, pos: nat, blk: seq<byte>): (v: Verdict)
    requires pos < |input| && blk == BlockAt(input, pos) && !IsZeroBlock(blk)
    ensures v.Short? <==> |input| - pos < CHKSUM_OFFSET
    ensures v.BadChecksum? <==> |input| - pos >= CHKSUM_OFFSET && !PrefixValid(blk)
    ensures v.Entry? <==> |input| - pos >= CHKSUM_OFFSET && PrefixValid(blk)
  {
    if |Prefix500(blk)| < CHKSUM_OFFSET then Short
    else if !PrefixValid(blk) then BadChecksum
    else Entry(EntryEnd(input, pos))
  }

  /** The header block and the padded content the header announces, as
      far as the input reaches: lines 30-35 (`ofp.write(nil)` at the end of
      the input writes nothing). */
  function ReadEntry(input: seq<byte>, pos: nat, blk: seq<byte>): (entry: seq<byte>)
    requires pos < |input| && blk == BlockAt(input, pos) && |Prefix500(blk)| >= CHKSUM_OFFSET
    ensures entry == input[pos..EntryEnd(input, pos)]
    ensures 0 < |blk| <= |entry|
  {
    var n := BodySize(Prefix500(blk));
    var body := ReadAt(input, pos + |blk|, n);
    EntrySlice(input, pos, blk, n, body);
    blk + ToS(body)
  }

  /** Every verdict of Classify, in both directions: the end of the input,
      a whole block of NULs, a tail too short to reach the checksum field,
      a header failing the checksum, and otherwise an entry, whose bytes
      are those ReadEntry reads: the input from the header to the end of
      its padded content. */
  lemma ClassifyVerdicts(input: seq<byte>, pos: nat)
    requires pos <= |input|
    ensures var v := Classify(input, pos);
      (v.AtEnd? <==> pos == |input|) &&
      (v.ZeroBlock? <==> pos + 512 <= |input| && IsZeroBlock(input[pos..pos + 512])) &&
      (v.Short? <==> pos < |input| && |input| - pos < CHKSUM_OFFSET) &&
      (v.BadChecksum? <==>
        (pos < |input| && |input| - pos >= CHKSUM_OFFSET &&
         !IsZeroBlock(BlockAt(input, pos)) && !PrefixValid(BlockAt(input, pos)))) &&
      (v.Entry? <==>
        (pos < |input| && |input| - pos >= CHKSUM_OFFSET &&
         !IsZeroBlock(BlockAt(input, pos)) && PrefixValid(BlockAt(input, pos))))
    ensures var v := Classify(input, pos);
      v.Entry? ==>
        input[pos..v.end] == ReadEntry(input, pos, BlockAt(input, pos)) &&
        input[pos..v.end] == input[pos..Min(pos + 512 + BodySize(Prefix500(BlockAt(input, pos))), |input|)]
  {
    if pos < |input| {
      var blk := BlockAt(input, pos);
      if |input| - pos < CHKSUM_OFFSET {
        assert !IsZeroBlock(blk);
      }
    }
  }

  /** The block at `pos` and the read of `n` bytes after it are the input
      from `pos` on, as far as `n` bytes after a whole record. */
  lemma EntrySlice(input: seq<byte>, pos: nat, blk: seq<byte>, n: nat, body: Option<seq<byte>>)
    requires pos < |input| && blk == BlockAt(input, pos)
    requires body == ReadAt(input, pos + |blk|, n)
    ensures blk + ToS(body) == input[pos..Min(pos + 512 + n, |input|)]
  {
    if body.Some? && n > 0 {
      assert blk + body.value == input[pos..pos + |blk|] + input[pos + |blk|..pos + |blk| + |body.value|];
    }
  }

  // ---------------------------------------------------------------------------
  // The walk: the header positions tarfix visits and its verdict at each

  /** A header position and what the loop does there. */
  datatype Visit = Visit(at: nat, verdict: Verdict)

  /** Where the loop goes on after a visit. */
  function Next(x: Visit): nat
  {
    match x.verdict
    case ZeroBlock => x.at + 512
    case Entry(end) => end
    case _ => x.at
  }

  /** The verdicts that end the run. */
  predicate Halts(v: Verdict) { v.Short? || v.BadChecksum? }

  /** The walk of header positions from `pos`: the verdict there, then,
      unless it stops the run, the walk from where its block or entry ends.
      What the walk visits is stated by WalkVisits. */
  function Walk(input: seq<byte>, pos: nat): (w: seq<Visit>)
    requires pos <= |input|
    ensures |w| == 0 <==> pos == |input|
    decreases |input| - pos
  {
    var v := Classify(input, pos);
    if v.AtEnd? then []
    else if Halts(v) then [Visit(pos, v)]
    else [Visit(pos, v)] + Walk(input, Next(Visit(pos, v)))
  }

  /** One step of the walk, as the loop takes it: past a dropped block or
      a copied entry the walk goes on from where it ends. */
  lemma WalkStep(input: seq<byte>, pos: nat, v: Verdict)
    requires pos < |input| && v == Classify(input, pos) && !Halts(v)
    ensures pos < Next(Visit(pos, v)) <= |input|
    ensures Walk(input, pos) == [Visit(pos, v)] + Walk(input, Next(Visit(pos, v)))
  {
  }

  /** A verdict that stops the run is the last visit of the walk. */
  lemma WalkLast(input: seq<byte>, pos: nat, v: Verdict)
    requires pos < |input| && v == Classify(input, pos) && Halts(v)
    ensures Walk(input, pos) == [Visit(pos, v)]
  {
  }

  /** The walk starts at `pos`; at each position it records the verdict
      Classify gives there; each next position is where the previous
      verdict's block or entry ends, and only the last verdict may stop the
      run; a walk that is not stopped ends exactly at the end of the input. */
  lemma WalkVisits(input: seq<byte>, pos: nat)
    requires pos <= |input|
    ensures var w := Walk(input, pos);
      (|w| > 0 ==> w[0].at == pos) &&
      (forall i :: 0 <= i < |w| ==> pos <= w[i].at < |input| && w[i].verdict == Classify(input, w[i].at)) &&
      (forall i :: 0 <= i < |w| - 1 ==> !Halts(w[i].verdict) && w[i + 1].at == Next(w[i])) &&
      (|w| > 0 && !Halts(w[|w| - 1].verdict) ==> Next(w[|w| - 1]) == |input|)
  {
    WalkPositions(input, pos);
    WalkLinks(input, pos);
  }

  lemma {:induction false} WalkPositions(input: seq<byte>, pos: nat)
    requires pos <= |input|
    ensures var w := Walk(input, pos);
      (|w| > 0 ==> w[0].at == pos) &&
      (forall i :: 0 <= i < |w| ==> pos <= w[i].at < |input| && w[i].verdict == Classify(input, w[i].at))
    decreases |input| - pos
  {
    var v := Classify(input, pos);
    if v.AtEnd? {
    } else if Halts(v) {
      WalkLast(input, pos, v);
    } else {
      var next := Next(Visit(pos, v));
      WalkStep(input, pos, v);
      WalkPositions(input, next);
      var rest := Walk(input, next);
      var w := [Visit(pos, v)] + rest;
      assert forall i :: 0 < i < |w| ==> w[i] == rest[i - 1];
    }
  }

  lemma {:induction false} WalkLinks(input: seq<byte>, pos: nat)
    requires pos <= |input|
    ensures var w := Walk(input, pos);
      (|w| > 0 ==> w[0].at == pos) &&
      (forall i :: 0 <= i < |w| - 1 ==> !Halts(w[i].verdict) && w[i + 1].at == Next(w[i])) &&
      (|w| > 0 && !Halts(w[|w| - 1].verdict) ==> Next(w[|w| - 1]) == |input|)
    decreases |input| - pos
  {
    var v := Classify(input, pos);
    if v.AtEnd? {
    } else if Halts(v) {
      WalkLast(input, pos, v);
    } else {
      var next := Next(Visit(pos, v));
      WalkStep(input, pos, v);
      WalkLinks(input, next);
      var rest := Walk(input, next);
      var w := [Visit(pos, v)] + rest;
      assert forall i :: 0 < i < |w| ==> w[i] == rest[i - 1];
    }
  }

  /** The bytes a visit copies: the entry, for a header that passes. */
  function Taken(input: seq<byte>, x: Visit): seq<byte>
  {
    if x.verdict.Entry? && x.at <= x.verdict.end <= |input| then input[x.at..x.verdict.end] else []
  }

  /** Bytes copied by the walk, in order. */
  function Kept(input: seq<byte>, w: seq<Visit>): seq<byte>
  {
    if |w| == 0 then [] else Kept(input, w[..|w| - 1]) + Taken(input, w[|w| - 1])
  }

  /** Blocks of NULs the walk drops: `nreset + nskip`. */
  function Drops(w: seq<Visit>): nat
  {
    if |w| == 0 then 0 else Drops(w[..|w| - 1]) + (if w[|w| - 1].verdict.ZeroBlock? then 1 else 0)
  }

  /** Blocks of NULs dropped since the last header: `nskip`. */
  function TrailingDrops(w: seq<Visit>): nat
  {
    if |w| == 0 || !w[|w| - 1].verdict.ZeroBlock? then 0 else TrailingDrops(w[..|w| - 1]) + 1
  }

  /** How a walk ends. */
  function Ending(w: seq<Visit>): Status
  {
    if |w| == 0 then Completed
    else match w[|w| - 1].verdict
      case Short => Crashed
      case BadChecksum => ChecksumAbort
      case _ => Completed
  }

  /** One more visit on the walk so far. */
  lemma Appended(input: seq<byte>, w: seq<Visit>, x: Visit)
    ensures Kept(input, w + [x]) == Kept(input, w) + Taken(input, x)
    ensures Drops(w + [x]) == Drops(w) + (if x.verdict.ZeroBlock? then 1 else 0)
    ensures TrailingDrops(w + [x]) == (if x.verdict.ZeroBlock? then TrailingDrops(w) + 1 else 0)
    ensures Ending(w + [x]) == Ending([x])
  {
    assert (w + [x])[..|w|] == w;
  }

  lemma Regroup(a: seq<Visit>, x: Visit, b: seq<Visit>)
    ensures a + ([x] + b) == (a + [x]) + b
  {
  }

  /** The loop's variables are the walk so far, folded. */
  predicate Traced(input: seq<byte>, trace: seq<Visit>, s: Scan)
  {
    s.pos <= |input| && Walk(input, 0) == trace + Walk(input, s.pos) &&
    Kept(input, trace) == s.out && Drops(trace) == s.nreset + s.nskip && TrailingDrops(trace) == s.nskip &&
    Ending(trace) == Completed
  }

  /** The loop moves past a dropped block or a copied entry. */
  lemma TraceStep(input: seq<byte>, trace: seq<Visit>, s: Scan, v: Verdict, s2: Scan)
    requires Traced(input, trace, s) && s.pos < |input| && v == Classify(input, s.pos) && !Halts(v)
    requires v.ZeroBlock? ==> s2 == Scan(s.out, s.nreset, s.nskip + 1, s.pos + 512, s.owed + 512)
    requires v.Entry? ==> s2 == Scan(s.out + input[s.pos..v.end], s.nreset + s.nskip, 0, v.end, s.owed)
    ensures Traced(input, trace + [Visit(s.pos, v)], s2)
  {
    var x := Visit(s.pos, v);
    WalkStep(input, s.pos, v);
    Regroup(trace, x, Walk(input, Next(x)));
    Appended(input, trace, x);
  }

  /** What a run of tarfix promises. It follows the walk: the output is what
      the walk copies, followed, when the run completes, by one block of
      NULs for each block the walk dropped; the counters count the dropped
      blocks; the run stops where the walk stops. And it loses nothing: it
      stops at the end of the input, or earlier only at a header that fails
      the checksum or at a tail too short to hold one; a completed run writes
      the same number of bytes and the same bytes, with the dropped blocks at
      the end and before them the input with those all-NUL blocks taken out;
      a run that stops has written the input up to the stop with the dropped
      blocks taken out; when no block was dropped the output is the input up
      to where the run stopped. */
  predicate Promised(input: seq<byte>, r: Outcome)
  {
    Follows(input, Walk(input, 0), r) && Conserves(input, r)
  }

  predicate Follows(input: seq<byte>, w: seq<Visit>, r: Outcome)
  {
    r.status == Ending(w) &&
    r.nreset + r.nskip == Drops(w) && r.nskip == TrailingDrops(w) &&
    r.out == Kept(input, w) + (if r.status == Completed then Zeros(512 * Drops(w)) else []) &&
    (r.status != Completed ==> |w| > 0 && r.at == w[|w| - 1].at)
  }

  predicate Conserves(input: seq<byte>, r: Outcome)
  {
    r.at <= |input| && (r.status == Completed <==> r.at == |input|) &&
    (r.status == Completed ==> |r.out| == |input| && multiset(r.out) == multiset(input)) &&
    (r.status == Completed ==>
      (512 * (r.nreset + r.nskip) <= |r.out| &&
       r.out[|r.out| - 512 * (r.nreset + r.nskip)..] == Zeros(512 * (r.nreset + r.nskip)))) &&
    (r.status == Completed ==> DropsZeroBlocks(r.out[..|input| - 512 * (r.nreset + r.nskip)], input)) &&
    (r.nreset + r.nskip == 0 ==> r.out == input[..r.at]) &&
    (r.status != Completed ==> StoppedAt(input, r.at, r.status)) &&
    (r.status != Completed ==>
      (|r.out| + 512 * (r.nreset + r.nskip) == r.at && DropsZeroBlocks(r.out, input[..r.at])))
  }

  /** tarfix: the loop of lines 5-37, then the dropped blocks written back
      (line 39); what the run promises is spelled out in Promised. */
  method Fix(input: seq<byte>) returns (r: Outcome)
    ensures Promised(input, r)
  {
    var s := Scan([], 0, 0, 0, 0);
    ghost var trace: seq<Visit> := [];
    while true
      invariant Inv(input, s) && Traced(input, trace, s)
      decreases |input| - s.pos
    {
      var v := Classify(input, s.pos);
      match v
      case AtEnd =>
        break;
      case Short =>
        r := Outcome(s.out, s.nreset + s.nskip, 0, Crashed, s.pos);
        Stops(input, trace, s, v, r);
        return;
      case BadChecksum =>
        r := Outcome(s.out, s.nreset + s.nskip, 0, ChecksumAbort, s.pos);
        Stops(input, trace, s, v, r);
        return;
      case ZeroBlock =>
        var next := Scan(s.out, s.nreset, s.nskip + 1, s.pos + 512, s.owed + 512);
        DropStep(input, trace, s, v, next);
        trace := trace + [Visit(s.pos, v)];
        s := next;
      case Entry(end) =>
        var entry := ReadEntry(input, s.pos, BlockAt(input, s.pos));
        var next := Scan(s.out + entry, s.nreset + s.nskip, 0, end, s.owed);
        CopyStep(input, trace, s, v, entry, next);
        trace := trace + [Visit(s.pos, v)];
        s := next;
    }
    r := Outcome(s.out + Zeros(s.owed), s.nreset, s.nskip, Completed, s.pos);
    Finished(input, trace, s, r);
  }

  /** Dropping an all-NUL block keeps both loop invariants. */
  lemma DropStep(input: seq<byte>, trace: seq<Visit>, s: Scan, v: Verdict, s2: Scan)
    requires Inv(input, s) && Traced(input, trace, s) && s.pos < |input| && v == Classify(input, s.pos) && v.ZeroBlock?
    requires s2 == Scan(s.out, s.nreset, s.nskip + 1, s.pos + 512, s.owed + 512)
    ensures Inv(input, s2) && Traced(input, trace + [Visit(s.pos, v)], s2)
  {
    Dropped(input, s, s2);
    TraceStep(input, trace, s, v, s2);
  }

  /** Copying an entry keeps both loop invariants. */
  lemma CopyStep(input: seq<byte>, trace: seq<Visit>, s: Scan, v: Verdict, entry: seq<byte>, s2: Scan)
    requires Inv(input, s) && Traced(input, trace, s) && s.pos < |input| && v == Classify(input, s.pos) && v.Entry?
    requires entry == ReadEntry(input, s.pos, BlockAt(input, s.pos))
    requires s2 == Scan(s.out + entry, s.nreset + s.nskip, 0, v.end, s.owed)
    ensures Inv(input, s2) && Traced(input, trace + [Visit(s.pos, v)], s2)
  {
    EntryRead(input, s.pos, v.end, entry);
    Copied(input, s, entry, v.end, s2);
    TraceStep(input, trace, s, v, s2);
  }

  /** What ReadEntry reads at an entry is the input up to the entry's end. */
  lemma EntryRead(input: seq<byte>, pos: nat, end: nat, entry: seq<byte>)
    requires pos + CHKSUM_OFFSET <= |input| && end == EntryEnd(input, pos)
    requires entry == ReadEntry(input, pos, BlockAt(input, pos))
    ensures pos < end <= |input| && entry == input[pos..end]
  {
  }

  /** A walk that drops a block counts it. */
  lemma {:induction false} DropsCounted(w: seq<Visit>, i: nat)
    requires i < |w| && w[i].verdict.ZeroBlock?
    ensures Drops(w) > 0
    decreases |w|
  {
    if i < |w| - 1 {
      DropsCounted(w[..|w| - 1], i);
    }
  }

  /** An all-NUL block where the run expects a header is dropped: nothing
      of it is copied there, and it is counted in `nreset + nskip`. */
  lemma ZeroHeaderDropped(input: seq<byte>, r: Outcome, i: nat)
    requires Promised(input, r) && i < |Walk(input, 0)|
    requires var p := Walk(input, 0)[i].at; p + 512 <= |input| && IsZeroBlock(input[p..p + 512])
    ensures Walk(input, 0)[i].verdict == ZeroBlock && Taken(input, Walk(input, 0)[i]) == []
    ensures r.nreset + r.nskip > 0
  {
    var w := Walk(input, 0);
    WalkVisits(input, 0);
    ClassifyVerdicts(input, w[i].at);
    DropsCounted(w, i);
  }

  /** A header that fails the checksum stops the run there: it is the last
      position visited, the run ends with ChecksumAbort, and it reports that
      header's position. */
  lemma HaltAtBadHeader(input: seq<byte>, r: Outcome, i: nat)
    requires Promised(input, r) && i < |Walk(input, 0)|
    requires var p := Walk(input, 0)[i].at;
      |input| - p >= CHKSUM_OFFSET && !IsZeroBlock(BlockAt(input, p)) && !PrefixValid(BlockAt(input, p))
    ensures i == |Walk(input, 0)| - 1 && r.status == ChecksumAbort && r.at == Walk(input, 0)[i].at
  {
    var w := Walk(input, 0);
    WalkVisits(input, 0);
    ClassifyVerdicts(input, w[i].at);
  }

  /** At the end of the input the dropped blocks are written back. */
  lemma Finished(input: seq<byte>, trace: seq<Visit>, s: Scan, r: Outcome)
    requires Inv(input, s) && Traced(input, trace, s) && s.pos == |input|
    requires r == Outcome(s.out + Zeros(s.owed), s.nreset, s.nskip, Completed, s.pos)
    ensures Promised(input, r)
  {
    assert Walk(input, 0) == trace + [];
    assert trace + [] == trace;
    FinishedConserves(input, s, r);
  }

  lemma FinishedConserves(input: seq<byte>, s: Scan, r: Outcome)
    requires Inv(input, s) && s.pos == |input|
    requires r == Outcome(s.out + Zeros(s.owed), s.nreset, s.nskip, Completed, s.pos)
    ensures Conserves(input, r)
  {
    assert input[..s.pos] == input;
    assert (s.out + Zeros(s.owed))[..|s.out|] == s.out;
    ZerosAppendMultiset(s.out, s.owed);
  }

  /** A stop keeps what was written so far. */
  lemma Stops(input: seq<byte>, trace: seq<Visit>, s: Scan, v: Verdict, r: Outcome)
    requires Inv(input, s) && Traced(input, trace, s) && s.pos < |input| && v == Classify(input, s.pos) && Halts(v)
    requires r == Outcome(s.out, s.nreset + s.nskip, 0, if v.Short? then Crashed else ChecksumAbort, s.pos)
    ensures Promised(input, r)
  {
    WalkLast(input, s.pos, v);
    Appended(input, trace, Visit(s.pos, v));
    StoppedHere(input, s.pos, v, r.status);
  }

  /** The verdict that stops the run is the one the stop is about. */
  lemma StoppedHere(input: seq<byte>, pos: nat, v: Verdict, status: Status)
    requires pos < |input| && v == Classify(input, pos) && Halts(v)
    requires status == if v.Short? then Crashed else ChecksumAbort
    ensures StoppedAt(input, pos, status)
  {
  }

  /** A dropped block of NULs moves from the input to the NULs owed. */
  lemma Dropped(input: seq<byte>, s: Scan, s2: Scan)
    requires Inv(input, s)
    requires s.pos + 512 <= |input| && IsZeroBlock(input[s.pos..s.pos + 512])
    requires s2 == Scan(s.out, s.nreset, s.nskip + 1, s.pos + 512, s.owed + 512)
    ensures Inv(input, s2)
  {
    DroppedBytes(input, s.pos, s2.pos, s2.out, s.owed, s2.owed);
    DroppedOrder(input, s.pos, s2.pos, s.out);
  }

  lemma DroppedOrder(input: seq<byte>, pos0: nat, pos: nat, out: seq<byte>)
    requires pos == pos0 + 512 && pos <= |input| && IsZeroBlock(input[pos0..pos])
    requires DropsZeroBlocks(out, input[..pos0])
    ensures DropsZeroBlocks(out, input[..pos])
  {
    var i := input[..pos];
    assert i[..|i| - 512] == input[..pos0];
    assert i[|i| - 512..] == input[pos0..pos];
  }

  lemma DroppedBytes(input: seq<byte>, pos0: nat, pos: nat, out: seq<byte>, owed0: nat, owed: nat)
    requires pos == pos0 + 512 && owed == owed0 + 512
    requires pos <= |input| && IsZeroBlock(input[pos0..pos])
    requires multiset(out) + multiset(Zeros(owed0)) == multiset(input[..pos0])
    ensures multiset(out) + multiset(Zeros(owed)) == multiset(input[..pos])
  {
    ZerosAppend(owed0, 512);
    assert input[..pos] == input[..pos0] + input[pos0..pos];
  }

  /** A copied entry moves from the input to the output, and the counter
      of dropped blocks is folded into `nreset`. */
  lemma Copied(input: seq<byte>, s: Scan, entry: seq<byte>, end: nat, s2: Scan)
    requires Inv(input, s)
    requires s.pos <= end <= |input| && entry == input[s.pos..end]
    requires s2 == Scan(s.out + entry, s.nreset + s.nskip, 0, end, s.owed)
    ensures Inv(input, s2)
  {
    CopiedBytes(input, s.pos, s2.pos, entry, s.out, s2.out, s2.owed);
    CopiedOrder(input, s.pos, s2.pos, entry, s.out);
  }

  lemma CopiedOrder(input: seq<byte>, pos0: nat, pos: nat, entry: seq<byte>, out0: seq<byte>)
    requires pos == pos0 + |entry| && pos <= |input| && entry == input[pos0..pos]
    requires DropsZeroBlocks(out0, input[..pos0])
    ensures DropsZeroBlocks(out0 + entry, input[..pos])
  {
    assert input[..pos] == input[..pos0] + entry;
    DropsKeepAppend(out0, input[..pos0], entry);
  }

  lemma CopiedBytes(input: seq<byte>, pos0: nat, pos: nat, entry: seq<byte>, out0: seq<byte>, out: seq<byte>, owed: nat)
    requires pos == pos0 + |entry| && out == out0 + entry
    requires pos <= |input| && entry == input[pos0..pos]
    requires multiset(out0) + multiset(Zeros(owed)) == multiset(input[..pos0])
    ensures multiset(out) + multiset(Zeros(owed)) == multiset(input[..pos])
    ensures out0 == input[..pos0] ==> out == input[..pos]
  {
    assert input[..pos] == input[..pos0] + entry;
  }

  lemma ZerosAppendMultiset(out: seq<byte>, z: nat)
    ensures multiset(out + Zeros(z)) == multiset(out) + multiset(Zeros(z))
  {
  }
}
