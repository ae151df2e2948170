/** Numbers as text: `sprintf("%0<w>o", n)` for writing header fields,
    `String#to_i(8)` for reading them back, and `Integer#to_s` for the
    numeric owner names the reader falls back to. */
module Octal {
  import opened Bytes

  const DIGIT_ZERO: byte := 48

  predicate IsDigit(b: byte) { 48 <= b <= 55 }

  predicate AllDigits(s: seq<byte>) { forall i :: 0 <= i < |s| ==> IsDigit(s[i]) }

  /** The white space `String#to_i` skips: space, \t, \n, \v, \f and \r. */
  predicate IsBlankChar(b: byte) { b == 32 || 9 <= b <= 13 }

  function Pow8(k: nat): nat { if k == 0 then 1 else 8 * Pow8(k - 1) }

  lemma {:induction false} Pow8Positive(k: nat)
    ensures Pow8(k) >= 1
  {
    if k > 0 {
      Pow8Positive(k - 1);
    }
  }

  /** The value of a run of octal digits, most significant first. */
  function Value(d: seq<byte>): nat
    requires AllDigits(d)
  {
    if |d| == 0 then 0 else Value(d[..|d| - 1]) * 8 + (d[|d| - 1] - DIGIT_ZERO)
  }

  /** `sprintf("%0<width>o", n)`: the octal digits of n, filled with '0' on the
      left to at least `width` digits; never shorter than one digit and never
      truncated, so a value too large for the width yields a longer string. */
  function Format(n: nat, width: nat): (r: seq<byte>)
    ensures AllDigits(r)
    ensures |r| >= 1 && |r| >= width
    ensures Value(r) == n
    ensures width >= 1 && n < Pow8(width) ==> |r| == width
    decreases n + width
  {
    if n < 8 && width <= 1 then [DIGIT_ZERO + n]
    else
      var r := Format(n / 8, if width > 0 then width - 1 else 0) + [DIGIT_ZERO + n % 8];
      assert r[..|r| - 1] == Format(n / 8, if width > 0 then width - 1 else 0);
      r
  }

  /** A value below 8^k takes at most k digits when the width asks for no more. */
  lemma {:induction false} FormatLength(n: nat, width: nat, k: nat)
    requires 1 <= k && width <= k && n < Pow8(k)
    ensures |Format(n, width)| <= k
    decreases n + width
  {
    if !(n < 8 && width <= 1) {
      assert k >= 2;
      FormatLength(n / 8, if width > 0 then width - 1 else 0, k - 1);
    }
  }

  /** The suffix left once leading white space is skipped. */
  function SkipBlanks(s: seq<byte>): (r: seq<byte>)
    ensures |r| <= |s| && r == s[|s| - |r|..]
    ensures |r| > 0 ==> !IsBlankChar(r[0])
    ensures forall i :: 0 <= i < |s| - |r| ==> IsBlankChar(s[i])
  {
    if |s| > 0 && IsBlankChar(s[0]) then SkipBlanks(s[1..]) else s
  }

  /** The length of the longest prefix made of octal digits. */
  function DigitRun(s: seq<byte>): (k: nat)
    ensures k <= |s| && AllDigits(s[..k])
    ensures k < |s| ==> !IsDigit(s[k])
  {
    if |s| > 0 && IsDigit(s[0]) then
      var k := 1 + DigitRun(s[1..]);
      assert forall i :: 1 <= i < k ==> s[..k][i] == s[1..][..k - 1][i - 1];
      k
    else 0
  }

  /** `str.to_i(8)`: skip leading white space, then read the longest run of
      octal digits; a string with no digits there reads as 0. */
  function Parse(s: seq<byte>): nat
    decreases |s|
  {
    if |s| > 0 && IsBlankChar(s[0]) then Parse(s[1..]) else Value(s[..DigitRun(s)])
  }

  /** Parse reads the digit run of what is left once white space is skipped. */
  lemma {:induction false} ParseSkips(s: seq<byte>)
    ensures Parse(s) == Value(SkipBlanks(s)[..DigitRun(SkipBlanks(s))])
    decreases |s|
  {
    if |s| > 0 && IsBlankChar(s[0]) {
      ParseSkips(s[1..]);
    }
  }

  /** What `to_i(8)` reads from a field: 0 when no digit follows the leading
      white space, and below 8^k from a k-byte field, since the digit run is
      no longer than the field. */
  lemma ParseRange(s: seq<byte>)
    ensures (SkipBlanks(s) == [] || !IsDigit(SkipBlanks(s)[0])) ==> Parse(s) == 0
    ensures Parse(s) < Pow8(|s|)
  {
    ParseSkips(s);
    var t := SkipBlanks(s);
    var k := DigitRun(t);
    ValueBound(t[..k]);
    Pow8Monotone(k, |s|);
  }

  /** k digits hold a value below 8^k. */
  lemma {:induction false} ValueBound(d: seq<byte>)
    requires AllDigits(d)
    ensures Value(d) < Pow8(|d|)
  {
    if |d| > 0 {
      var d' := d[..|d| - 1];
      ValueBound(d');
      assert Value(d') <= Pow8(|d'|) - 1;
      assert Value(d) <= (Pow8(|d'|) - 1) * 8 + 7;
    }
  }

  lemma {:induction false} Pow8Monotone(j: nat, k: nat)
    requires j <= k
    ensures Pow8(j) <= Pow8(k)
  {
    if j < k {
      Pow8Monotone(j, k - 1);
      Pow8Positive(k - 1);
    }
  }

  lemma {:induction false} DigitRunOfDigits(d: seq<byte>, rest: seq<byte>)
    requires AllDigits(d)
    requires rest == [] || !IsDigit(rest[0])
    ensures DigitRun(d + rest) == |d|
    decreases |d|
  {
    if |d| > 0 {
      assert (d + rest)[1..] == d[1..] + rest;
      DigitRunOfDigits(d[1..], rest);
    } else {
      assert d + rest == rest;
    }
  }

  /** What `sprintf("%0<w>o")` writes, `to_i(8)` reads back, whatever
      non-digit follows it in the field. */
  lemma ParseFormat(n: nat, width: nat, rest: seq<byte>)
    requires rest == [] || !IsDigit(rest[0])
    ensures Parse(Format(n, width) + rest) == n
  {
    var d := Format(n, width);
    assert !IsBlankChar((d + rest)[0]);
    assert SkipBlanks(d + rest) == d + rest;
    DigitRunOfDigits(d, rest);
    assert (d + rest)[..|d|] == d;
  }

  lemma {:induction false} DigitRunIgnoresNonDigits(t: seq<byte>, pad: seq<byte>)
    requires forall i :: 0 <= i < |pad| ==> !IsDigit(pad[i])
    ensures DigitRun(t + pad) == DigitRun(t)
    ensures (t + pad)[..DigitRun(t)] == t[..DigitRun(t)]
    decreases |t|
  {
    if |t| == 0 {
      assert t + pad == pad;
    } else {
      assert (t + pad)[1..] == t[1..] + pad;
      DigitRunIgnoresNonDigits(t[1..], pad);
    }
  }

  lemma {:induction false} SkipBlanksAppend(a: seq<byte>, b: seq<byte>)
    ensures SkipBlanks(a + b) == if |SkipBlanks(a)| == 0 then SkipBlanks(b) else SkipBlanks(a) + b
    decreases |a|
  {
    if |a| == 0 {
      assert a + b == b;
    } else if IsBlankChar(a[0]) {
      assert (a + b)[1..] == a[1..] + b;
      SkipBlanksAppend(a[1..], b);
    }
  }

  predicate NoDigits(s: seq<byte>) { forall i :: 0 <= i < |s| ==> !IsDigit(s[i]) }

  /** Parsing only ever looks at a digit run: trailing bytes that are not
      digits make no difference. */
  lemma ParseIgnoresNonDigits(r: seq<byte>, pad: seq<byte>)
    requires NoDigits(pad)
    ensures Parse(r + pad) == Parse(r)
  {
    ParseSkips(r);
    ParseSkips(r + pad);
    SkipBlanksAppend(r, pad);
    var a := SkipBlanks(r);
    if |a| == 0 {
      NoDigitsParse(pad);
      assert DigitRun(a) == 0;
    } else {
      DigitRunIgnoresNonDigits(a, pad);
    }
  }

  lemma NoDigitsParse(pad: seq<byte>)
    requires NoDigits(pad)
    ensures Parse(pad) == 0
  {
    ParseSkips(pad);
    var t := SkipBlanks(pad);
    assert DigitRun(t) == 0 by {
      if |t| > 0 {
        assert t[0] == pad[|pad| - |t|];
      }
    }
  }

  /** `unpack('A*')` before `to_i(8)` (as find_eof and tarfix do) reads the
      same number as `to_i(8)` alone (as the reader does): the bytes it strips
      are never digits. */
  lemma ParseUnpackA(s: seq<byte>)
    ensures Parse(UnpackA(s)) == Parse(s)
  {
    var r := UnpackA(s);
    var pad := s[|r|..];
    assert s == r + pad;
    assert NoDigits(pad) by {
      forall i | 0 <= i < |pad| ensures !IsDigit(pad[i]) {
        assert IsPad(s[|r| + i]);
      }
    }
    ParseIgnoresNonDigits(r, pad);
  }

  predicate DecimalDigits(d: seq<byte>) { forall i :: 0 <= i < |d| ==> 48 <= d[i] <= 57 }

  /** The decimal value of a run of digits '0'..'9'. */
  function DecimalValue(d: seq<byte>): nat
    requires DecimalDigits(d)
  {
    if |d| == 0 then 0 else DecimalValue(d[..|d| - 1]) * 10 + (d[|d| - 1] - 48)
  }

  /** `n.to_s`: the decimal digits of n, with no leading zero. */
  function Decimal(n: nat): (r: seq<byte>)
    ensures |r| >= 1 && DecimalDigits(r)
    ensures |r| > 1 ==> r[0] != 48
    ensures DecimalValue(r) == n
  {
    if n < 10 then [48 + n]
    else
      var r := Decimal(n / 10) + [48 + n % 10];
      assert r[..|r| - 1] == Decimal(n / 10);
      r
  }
}
