/** Byte strings and the handful of Ruby String / IO primitives the archive code
    is written in: `str[off, len]`, `pack('a')`, `pack('A')`, `unpack('A')`,
    `IO#read(n)` and `IO#write` at a file position. Every archive operation of
    the model is built from these. */
module Bytes {

  /** An unsigned 8-bit value, as `String#each_byte` yields it. */
  type byte = b: int | 0 <= b < 256

  datatype Option<T> = None | Some(value: T)

  const NUL: byte := 0
  const LF: byte := 10
  const SPACE: byte := 32

  /** The size of a tar record. */
  const RECORD: nat := 512

  function Min(a: int, b: int): int { if a <= b then a else b }
  function Max(a: int, b: int): int { if a <= b then b else a }

  /** `"\0" * n`. */
  function Zeros(n: nat): seq<byte> { seq(n, _ => NUL) }

  /** `' ' * n`. */
  function Spaces(n: nat): seq<byte> { seq(n, _ => SPACE) }

  predicate AllZero(s: seq<byte>) { forall i :: 0 <= i < |s| ==> s[i] == NUL }

  /** The byte sum `s = 0; str.each_byte { |c| s += c }`. */
  function Sum(s: seq<byte>): nat
  {
    if |s| == 0 then 0 else Sum(s[..|s| - 1]) + s[|s| - 1]
  }

  lemma {:induction false} SumAppend(a: seq<byte>, b: seq<byte>)
    ensures Sum(a + b) == Sum(a) + Sum(b)
    decreases |b|
  {
    if |b| == 0 {
      assert a + b == a;
    } else {
      assert (a + b)[..|a + b| - 1] == a + b[..|b| - 1];
      SumAppend(a, b[..|b| - 1]);
    }
  }

  lemma {:induction false} SumBound(s: seq<byte>)
    ensures Sum(s) <= 255 * |s|
  {
    if |s| > 0 {
      SumBound(s[..|s| - 1]);
    }
  }

  lemma {:induction false} SumZeros(n: nat)
    ensures Sum(Zeros(n)) == 0
  {
    if n > 0 {
      assert Zeros(n)[..n - 1] == Zeros(n - 1);
      SumZeros(n - 1);
    }
  }

  lemma {:induction false} SumSpaces(n: nat)
    ensures Sum(Spaces(n)) == 32 * n
  {
    if n > 0 {
      assert Spaces(n)[..n - 1] == Spaces(n - 1);
      SumSpaces(n - 1);
    }
  }

  /** Changing one byte changes the sum by exactly the difference. */
  lemma SumUpdate(s: seq<byte>, i: nat, b: byte)
    requires i < |s|
    ensures Sum(s[i := b]) == Sum(s) - s[i] + b
  {
    assert s == s[..i] + [s[i]] + s[i + 1..];
    assert s[i := b] == s[..i] + [b] + s[i + 1..];
    SumAppend(s[..i] + [s[i]], s[i + 1..]);
    SumAppend(s[..i], [s[i]]);
    SumAppend(s[..i] + [b], s[i + 1..]);
    SumAppend(s[..i], [b]);
    assert Sum([s[i]]) == s[i] by { assert [s[i]][..0] == []; }
    assert Sum([b]) == b by { assert [b][..0] == []; }
  }

  /** The padded size of `size` content bytes, as the source computes it in four
      places (`size -= 1; size -= size % 512; size += 512`). Ruby's `%` floors,
      which for the positive divisor 512 is Dafny's `%`, so `-1 % 512 == 511`
      and an empty content occupies no record at all. */
  function RoundUp512(n: nat): (r: nat)
    ensures r % 512 == 0
    ensures n <= r < n + 512
  {
    var m: int := n - 1;
    m - m % 512 + 512
  }

  /** A multiple of 512 leaves no remainder. */
  lemma MultipleOf512(m: nat)
    ensures (512 * m) % 512 == 0
  {
  }

  /** A record, then whole records after record k, ends on a record
      boundary. */
  lemma AlignedAfter(k: nat, n: nat)
    requires n % 512 == 0
    ensures (512 * k + 512 + n) % 512 == 0
  {
    var b := n / 512;
    assert n == 512 * b;
    assert 512 * k + 512 + n == 512 * (k + 1 + b);
    MultipleOf512(k + 1 + b);
  }

  /** The smallest multiple of 512 that is at least n is RoundUp512(n): the
      contract above pins the value down uniquely. */
  lemma RoundUp512Least(n: nat, k: nat)
    requires k % 512 == 0 && n <= k
    ensures RoundUp512(n) <= k
  {
    var r := RoundUp512(n);
    var a, b := r / 512, k / 512;
    assert r == 512 * a && k == 512 * b;
    assert 512 * a < 512 * b + 512;
  }

  /** add2 pads with `((n + 511) / 512) * 512 - n` bytes: the same rounding. */
  lemma RoundUp512Division(n: nat)
    ensures RoundUp512(n) == ((n + 511) / 512) * 512
  {
    var q := (n + 511) / 512;
    assert q * 512 <= n + 511 < q * 512 + 512;
    RoundUp512Least(n, q * 512);
    var r := RoundUp512(n);
    var a := r / 512;
    assert r == 512 * a;
    assert 512 * q < 512 * a + 512;
  }

  /** Sizes 0, 1, 511, 512, 513, and the sizes 1022..1025 that
      research/debug1/blkbound.rb writes. */
  lemma RoundUp512Examples()
    ensures RoundUp512(0) == 0 && RoundUp512(1) == 512 && RoundUp512(511) == 512
    ensures RoundUp512(512) == 512 && RoundUp512(513) == 1024
    ensures RoundUp512(1022) == 1024 && RoundUp512(1023) == 1024
    ensures RoundUp512(1024) == 1024 && RoundUp512(1025) == 1536
  {
  }

  // ---------------------------------------------------------------------------
  // Ruby String primitives

  /** `str[off, len]`: nil when `off` lies past the end, else the substring,
      short when fewer than `len` bytes remain. */
  function Slice(s: seq<byte>, off: nat, len: nat): (r: Option<seq<byte>>)
    ensures r.None? <==> off > |s|
    ensures r.Some? ==> |r.value| == Min(len, |s| - off)
    ensures r.Some? ==> forall i | 0 <= i < |r.value| :: r.value[i] == s[off + i]
    ensures 0 < len && off < |s| ==> r == ReadAt(s, off, len)
  {
    if off > |s| then None else Some(s[off..Min(off + len, |s|)])
  }

  /** `str[off, len]` for an offset that may be negative: a negative offset
      counts from the end, and one still before the start gives nil. */
  function SliceAt(s: seq<byte>, off: int, len: nat): (r: Option<seq<byte>>)
    ensures off >= 0 ==> r == Slice(s, off, len)
    ensures off < 0 ==> (r.None? <==> off + |s| < 0)
    ensures off < 0 && r.Some? ==> |r.value| == Min(len, -off)
    ensures off < 0 && r.Some? ==> forall i | 0 <= i < |r.value| :: r.value[i] == s[|s| + off + i]
    ensures off == -1 && len > 0 ==> (r.Some? <==> |s| > 0) && (r.Some? ==> r.value == [s[|s| - 1]])
  {
    if off >= 0 then Slice(s, off, len)
    else if off + |s| < 0 then None
    else Slice(s, off + |s|, len)
  }

  /** `obj.to_s` of a string or nil: nil gives "". */
  function ToS(o: Option<seq<byte>>): seq<byte>
  {
    if o.Some? then o.value else []
  }

  /** `[str].pack("a<width>")`: truncate, or pad with NULs. */
  function PackNul(s: seq<byte>, width: nat): (r: seq<byte>)
    ensures |r| == width
    ensures |s| >= width ==> r == s[..width]
    ensures |s| < width ==> r[..|s|] == s && AllZero(r[|s|..])
  {
    if |s| >= width then s[..width] else s + Zeros(width - |s|)
  }

  /** `[str].pack("A<width>")`: truncate, or pad with spaces. */
  function PackSpace(s: seq<byte>, width: nat): (r: seq<byte>)
    ensures |r| == width
    ensures |s| >= width ==> r == s[..width]
    ensures |s| < width ==> r[..|s|] == s && forall i :: |s| <= i < width ==> r[i] == SPACE
  {
    if |s| >= width then s[..width] else s + Spaces(width - |s|)
  }

  predicate IsPad(b: byte) { b == NUL || b == SPACE }

  /** `str.unpack('A*').first`: strip the trailing NULs and spaces. */
  function UnpackA(s: seq<byte>): (r: seq<byte>)
    ensures |r| <= |s| && r == s[..|r|]
    ensures forall i :: |r| <= i < |s| ==> IsPad(s[i])
    ensures |r| > 0 ==> !IsPad(r[|r| - 1])
  {
    if |s| == 0 || !IsPad(s[|s| - 1]) then s else UnpackA(s[..|s| - 1])
  }

  /** A record that `unpack('A512').first.empty?` calls blank. */
  predicate Blank(s: seq<byte>) { UnpackA(s) == [] }

  lemma BlankIffPadding(s: seq<byte>)
    ensures Blank(s) <==> forall i :: 0 <= i < |s| ==> IsPad(s[i])
  {
  }

  /** Trailing padding is exactly what `unpack('A')` removes. */
  lemma {:induction false} UnpackAPadded(s: seq<byte>, pad: seq<byte>)
    requires forall i :: 0 <= i < |pad| ==> IsPad(pad[i])
    ensures UnpackA(s + pad) == UnpackA(s)
    decreases |pad|
  {
    if |pad| == 0 {
      assert s + pad == s;
    } else {
      assert (s + pad)[..|s + pad| - 1] == s + pad[..|pad| - 1];
      UnpackAPadded(s, pad[..|pad| - 1]);
    }
  }

  /** What `pack('A')` pads, `unpack('A')` strips again, when the string
      itself does not end in a NUL or a space. */
  lemma UnpackPackSpace(s: seq<byte>, width: nat)
    requires |s| <= width
    requires |s| > 0 ==> !IsPad(s[|s| - 1])
    ensures UnpackA(PackSpace(s, width)) == s
  {
    UnpackAPadded(s, Spaces(width - |s|));
    if |s| == width {
      assert PackSpace(s, width) == s + Spaces(0);
    }
  }

  /** A run of NULs unpacks to nothing. */
  lemma UnpackAZeros(n: nat)
    ensures UnpackA(Zeros(n)) == []
  {
    UnpackAPadded([], Zeros(n));
    assert [] + Zeros(n) == Zeros(n);
  }

  /** A string with a significant last byte survives `pack('a')` followed by
      `unpack('A')` unchanged. */
  lemma UnpackPackNul(s: seq<byte>, width: nat)
    requires |s| <= width
    requires |s| > 0 ==> !IsPad(s[|s| - 1])
    ensures UnpackA(PackNul(s, width)) == s
  {
    UnpackAPadded(s, Zeros(width - |s|));
    if |s| == width {
      assert PackNul(s, width) == s + Zeros(0);
    }
  }

  // ---------------------------------------------------------------------------
  // Ruby IO on a file modelled as its byte sequence

  /** `io.read(n)` at position `pos`: `""` when n is 0, nil at or past end of
      file, otherwise up to n bytes. */
  function ReadAt(data: seq<byte>, pos: nat, n: nat): (r: Option<seq<byte>>)
    ensures n == 0 ==> r == Some([])
    ensures n > 0 ==> (r.None? <==> pos >= |data|)
    ensures r.Some? && n > 0 ==> 0 < |r.value| <= n && pos + |r.value| <= |data|
    ensures r.Some? && n > 0 ==> r.value == data[pos..pos + |r.value|]
    ensures r.Some? && |r.value| < n ==> pos + |r.value| == |data|
    ensures r.Some? && n > 0 ==> r.value == data[pos..Min(pos + n, |data|)]
  {
    if n == 0 then Some([])
    else if pos >= |data| then None
    else Some(data[pos..Min(pos + n, |data|)])
  }

  /** `io.write(d)` at position `p`: overwrite in place, extend at the end,
      and leave a zero-filled hole when `p` lies past end of file. Writing
      nothing changes nothing. */
  function WriteAt(f: seq<byte>, p: nat, d: seq<byte>): (r: seq<byte>)
    ensures |d| == 0 ==> r == f
    ensures |d| > 0 ==> |r| == Max(|f|, p + |d|)
  {
    if |d| == 0 then f
    else if p <= |f| then f[..p] + d + (if p + |d| < |f| then f[p + |d|..] else [])
    else f + Zeros(p - |f|) + d
  }

  /** Byte by byte: the written bytes at p.., the old bytes elsewhere, NUL in
      the hole. */
  lemma WriteAtBytes(f: seq<byte>, p: nat, d: seq<byte>)
    requires |d| > 0
    ensures forall i :: 0 <= i < |WriteAt(f, p, d)| ==>
      WriteAt(f, p, d)[i] == (if p <= i < p + |d| then d[i - p] else if i < |f| then f[i] else NUL)
  {
  }

  /** Two consecutive writes are one write of the concatenation. */
  lemma WriteAtThen(f: seq<byte>, p: nat, a: seq<byte>, b: seq<byte>)
    ensures WriteAt(WriteAt(f, p, a), p + |a|, b) == WriteAt(f, p, a + b)
  {
    if |a| > 0 && |b| > 0 {
      var l := WriteAt(WriteAt(f, p, a), p + |a|, b);
      var r := WriteAt(f, p, a + b);
      WriteAtBytes(f, p, a);
      WriteAtBytes(WriteAt(f, p, a), p + |a|, b);
      WriteAtBytes(f, p, a + b);
      assert |l| == |r|;
      forall i | 0 <= i < |l|
        ensures l[i] == r[i]
      {
      }
    } else if |a| == 0 {
      assert a + b == b;
    } else {
      assert a + b == a;
    }
  }

  /** WriteAtThen with every intermediate file named. */
  lemma WriteAtChain(f0: seq<byte>, p0: nat, a: seq<byte>, f1: seq<byte>, p1: nat, b: seq<byte>, f2: seq<byte>)
    requires p1 == p0 + |a| && f1 == WriteAt(f0, p0, a) && f2 == WriteAt(f1, p1, b)
    ensures f2 == WriteAt(f0, p0, a + b)
  {
    WriteAtThen(f0, p0, a, b);
  }

  /** The same, read the other way: a write of a + b is a write of b after
      a write of a. */
  lemma WriteAtSplit(f0: seq<byte>, p0: nat, a: seq<byte>, f1: seq<byte>, p1: nat, b: seq<byte>, f2: seq<byte>)
    requires p1 == p0 + |a| && f1 == WriteAt(f0, p0, a) && f2 == WriteAt(f0, p0, a + b)
    ensures f2 == WriteAt(f1, p1, b)
  {
    WriteAtThen(f0, p0, a, b);
    assert WriteAt(f1, p1, b) == WriteAt(WriteAt(f0, p0, a), p0 + |a|, b);
  }

  lemma ZerosAppend(a: nat, b: nat)
    ensures Zeros(a) + Zeros(b) == Zeros(a + b)
  {
  }

  /** Two writes of NULs in a row are one longer write of NULs. */
  lemma WriteZerosThen(f: seq<byte>, p: nat, m: nat, n: nat, f1: seq<byte>, f2: seq<byte>)
    requires f1 == WriteAt(f, p, Zeros(m)) && f2 == WriteAt(f1, p + m, Zeros(n))
    ensures f2 == WriteAt(f, p, Zeros(m + n))
  {
    WriteAtThen(f, p, Zeros(m), Zeros(n));
    ZerosAppend(m, n);
  }

  /** Writing at the end of the file appends. */
  lemma WriteAtEnd(f: seq<byte>, d: seq<byte>)
    ensures WriteAt(f, |f|, d) == f + d
  {
  }

  /** A slice of a run of bytes is the matching slice of the run. */
  lemma SubRun(h: seq<byte>, lo: nat, x: seq<byte>, a: nat, b: nat)
    requires lo + |x| <= |h| && h[lo..lo + |x|] == x
    requires lo <= a <= b <= lo + |x|
    ensures h[a..b] == x[a - lo..b - lo]
  {
    forall i | 0 <= i < b - a
      ensures h[a..b][i] == x[a - lo..b - lo][i]
    {
      assert h[a + i] == h[lo..lo + |x|][a + i - lo];
    }
  }
}
