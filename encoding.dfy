/** Key encoding of the TTL namespace: how an expiry timestamp is rendered as
    a string, the reverse-index key built from it, and the byte-wise order in
    which the store scans keys. */
module Encoding {

  /** Prefix of every reverse-index key. */
  const START: string := "x!"
  /** Separator placed between the timestamp and the key unless configured. */
  const DEFAULT_SEPARATOR: string := "!"
  /** Sweep interval in milliseconds unless configured. */
  const DEFAULT_FREQUENCY: nat := 10000
  /** Number of digits the corrected rendering pads a timestamp to. */
  const WIDTH: nat := 16

  // ---------------------------------------------------------------------
  // Decimal digits

  predicate IsDigit(c: char) { '0' <= c <= '9' }

  predicate AllDigits(s: string) { forall i :: 0 <= i < |s| ==> IsDigit(s[i]) }

  function DigitChar(d: nat): (c: char)
    requires d < 10
    ensures IsDigit(c) && c as int - 48 == d
  {
    (48 + d) as char
  }

  function DigitValue(c: char): nat
    requires IsDigit(c)
  {
    c as int - 48
  }

  /** The number a digit string denotes, as `Number(s)` reads it. */
  function Value(s: string): nat
    requires AllDigits(s)
  {
    if |s| == 0 then 0 else 10 * Value(s[..|s| - 1]) + DigitValue(s[|s| - 1])
  }

  function Pow10(w: nat): (p: nat)
    ensures p >= 1
  {
    if w == 0 then 1 else 10 * Pow10(w - 1)
  }

  /** `String(n)` for a non-negative integer: the shortest decimal form,
      which is what the source stores as the expiry timestamp. */
  function Decimal(n: nat): (r: string)
    ensures 0 < |r| && AllDigits(r)
    ensures Value(r) == n
    decreases n
  {
    if n < 10 then [DigitChar(n)] else Decimal(n / 10) + [DigitChar(n % 10)]
  }

  /** A number has at most w decimal digits exactly when it is below 10^w. */
  lemma {:induction false} DecimalFits(n: nat, w: nat)
    requires w > 0
    ensures |Decimal(n)| <= w <==> n < Pow10(w)
    decreases n
  {
    if n >= 10 {
      assert |Decimal(n)| == |Decimal(n / 10)| + 1;
      if w == 1 {
        assert Pow10(1) == 10;
      } else {
        DecimalFits(n / 10, w - 1);
      }
    }
  }

  function Zeros(k: nat): (z: string)
    ensures |z| == k && AllDigits(z)
  {
    seq(k, _ => '0')
  }

  /** Leading zeros do not change the number a digit string denotes. */
  lemma {:induction false} LeadingZeros(k: nat, s: string)
    requires AllDigits(s)
    ensures AllDigits(Zeros(k) + s) && Value(Zeros(k) + s) == Value(s)
    decreases |s|
  {
    var z := Zeros(k) + s;
    if |s| == 0 {
      assert z == Zeros(k);
      ZerosValue(k);
    } else {
      var s' := s[..|s| - 1];
      assert z[..|z| - 1] == Zeros(k) + s';
      LeadingZeros(k, s');
    }
  }

  lemma {:induction false} ZerosValue(k: nat)
    ensures Value(Zeros(k)) == 0
  {
    if k > 0 {
      assert Zeros(k)[..k - 1] == Zeros(k - 1);
      ZerosValue(k - 1);
    }
  }

  /** The corrected rendering: `String(n)` padded on the left with zeros to
      WIDTH digits (longer numbers keep their own length), so that equal-width
      timestamps compare as strings the way they compare as numbers. */
  function Pad(n: nat): (r: string)
    ensures 0 < |r| && AllDigits(r) && Value(r) == n
    ensures |r| >= WIDTH
    ensures n < Pow10(WIDTH) ==> |r| == WIDTH
  {
    var d := Decimal(n);
    DecimalFits(n, WIDTH);
    if |d| < WIDTH then
      LeadingZeros(WIDTH - |d|, d);
      Zeros(WIDTH - |d|) + d
    else
      d
  }

  // ---------------------------------------------------------------------
  // The order in which the store compares keys

  /** Strict lexicographic order, character by character: `a` sorts before `b`. */
  predicate Below(a: string, b: string)
    decreases |a|
  {
    if |b| == 0 then false
    else if |a| == 0 then true
    else if a[0] != b[0] then a[0] < b[0]
    else Below(a[1..], b[1..])
  }

  predicate AtMost(a: string, b: string) { a == b || Below(a, b) }

  /** `Below` is a strict order: it never holds both ways, nor of equal strings. */
  lemma {:induction false} BelowAsymmetric(a: string, b: string)
    requires Below(a, b)
    ensures !Below(b, a) && a != b && !AtMost(b, a)
    decreases |a|
  {
    if |a| > 0 && a[0] == b[0] {
      BelowAsymmetric(a[1..], b[1..]);
    }
  }

  lemma {:induction false} BelowCommonPrefix(p: string, a: string, b: string)
    ensures Below(p + a, p + b) <==> Below(a, b)
    decreases |p|
  {
    if |p| > 0 {
      assert (p + a)[1..] == p[1..] + a;
      assert (p + b)[1..] == p[1..] + b;
      BelowCommonPrefix(p[1..], a, b);
    } else {
      assert p + a == a && p + b == b;
    }
  }

  /** Between strings of equal length the order decides at a differing
      character, so whatever follows them does not matter. */
  lemma {:induction false} BelowExtend(a: string, b: string, x: string, y: string)
    requires |a| == |b| && Below(a, b)
    ensures Below(a + x, b + y)
    decreases |a|
  {
    if a[0] == b[0] {
      assert (a + x)[1..] == a[1..] + x;
      assert (b + y)[1..] == b[1..] + y;
      BelowExtend(a[1..], b[1..], x, y);
    }
  }

  lemma {:induction false} BelowSnoc(a: string, b: string, x: char, y: char)
    requires |a| == |b|
    ensures Below(a + [x], b + [y]) <==> Below(a, b) || (a == b && x < y)
    decreases |a|
  {
    if |a| == 0 {
      assert a + [x] == [x] && b + [y] == [y];
    } else {
      assert (a + [x])[1..] == a[1..] + [x];
      assert (b + [y])[1..] == b[1..] + [y];
      BelowSnoc(a[1..], b[1..], x, y);
      if a[0] == b[0] {
        assert a == b <==> a[1..] == b[1..];
      }
    }
  }

  lemma PrefixAtMost(p: string, x: string)
    ensures AtMost(p, p + x)
  {
    if |x| > 0 {
      BelowCommonPrefix(p, [], x);
      assert p + [] == p;
    } else {
      assert p + x == p;
    }
  }

  /** For digit strings of one length, string order is numeric order. */
  lemma {:induction false} DigitOrder(a: string, b: string)
    requires AllDigits(a) && AllDigits(b) && |a| == |b|
    ensures Value(a) < Value(b) <==> Below(a, b)
    ensures Value(a) == Value(b) <==> a == b
    decreases |a|
  {
    if |a| > 0 {
      var n := |a| - 1;
      var a', b' := a[..n], b[..n];
      DigitOrder(a', b');
      assert a == a' + [a[n]] && b == b' + [b[n]];
      BelowSnoc(a', b', a[n], b[n]);
    }
  }

  // ---------------------------------------------------------------------
  // Reverse-index keys and the sweep's scan range

  predicate IsIndexKey(k: string) { |k| >= |START| && k[..|START|] == START }

  /** A separator the encoding can rely on: non-empty, not a digit (so the
      timestamp ends where it starts) and sorting before the scan's closing '~'. */
  predicate GoodSeparator(sep: string)
  {
    |sep| > 0 && !IsDigit(sep[0]) && sep[0] < '~'
  }

  /** The reverse-index key of `key` under expiry timestamp `exp`. */
  function ExpirationKey(exp: string, sep: string, key: string): (r: string)
    ensures IsIndexKey(r)
    ensures |r| >= |key| && r[|r| - |key|..] == key
  {
    START + (exp + (sep + key))
  }

  /** Two reverse-index keys built from digit timestamps are equal only when
      they come from the same timestamp and the same key. */
  lemma ExpirationKeyInjective(e1: string, e2: string, sep: string, k1: string, k2: string)
    requires AllDigits(e1) && AllDigits(e2) && |sep| > 0 && !IsDigit(sep[0])
    ensures ExpirationKey(e1, sep, k1) == ExpirationKey(e2, sep, k2) ==> e1 == e2 && k1 == k2
  {
    var r1, r2 := ExpirationKey(e1, sep, k1), ExpirationKey(e2, sep, k2);
    if r1 == r2 {
      var s := |START|;
      var m := if |e1| < |e2| then |e1| else |e2|;
      assert IsDigit(r1[s + m]) == (m < |e1|);
      assert IsDigit(r2[s + m]) == (m < |e2|);
      assert |e1| == |e2|;
      assert e1 == r1[s..s + |e1|] == r2[s..s + |e2|] == e2;
      assert k1 == r1[s + |e1| + |sep|..] == r2[s + |e2| + |sep|..] == k2;
    }
  }

  /** Inclusive upper bound of the sweep's range scan for the rendered `now`. */
  function ScanEnd(now: string): string
  {
    START + (now + "~")
  }

  /** A key lies in the scan range [START, START + now + '~'] (both ends inclusive). */
  predicate InScan(k: string, now: string)
  {
    AtMost(START, k) && AtMost(k, ScanEnd(now))
  }

  /** Only reverse-index keys lie in the scan range. */
  lemma ScanOnlyIndexKeys(k: string, now: string)
    requires InScan(k, now)
    ensures IsIndexKey(k)
  {
    var e := ScanEnd(now);
    assert e[0] == 'x' && e[1] == '!';
    if k != START {
      assert Below(START, k);
      assert |k| > 0;
      if k != e {
        assert Below(k, e);
        assert k[0] == 'x';
        assert Below("!", k[1..]);
        assert |k| > 1;
        assert Below(k[1..], e[1..]);
        assert k[1] == '!';
      }
      assert k[..2] == START;
    }
  }

  /** The scan boundary: with timestamps of one width, a reverse-index key is
      in the range exactly when its timestamp is at or before `now`; the entry
      that expires exactly now is included because the separator sorts before '~'. */
  lemma ScanBoundary(exp: string, now: string, sep: string, key: string)
    requires AllDigits(exp) && AllDigits(now) && |exp| == |now|
    requires GoodSeparator(sep)
    ensures InScan(ExpirationKey(exp, sep, key), now) <==> Value(exp) <= Value(now)
  {
    PrefixAtMost(START, exp + (sep + key));
    UpperBound(START, exp, now, sep + key);
  }

  /** Comparison with the scan's upper bound, for any common prefix `p`. */
  lemma UpperBound(p: string, exp: string, now: string, tail: string)
    requires AllDigits(exp) && AllDigits(now) && |exp| == |now|
    requires |tail| > 0 && tail[0] < '~'
    ensures AtMost(p + (exp + tail), p + (now + "~")) <==> Value(exp) <= Value(now)
  {
    DigitOrder(exp, now);
    if Value(exp) < Value(now) {
      BelowExtend(exp, now, tail, "~");
      BelowCommonPrefix(p, exp + tail, now + "~");
    } else if Value(exp) == Value(now) {
      SeparatorBeforeTilde(exp, tail);
      BelowCommonPrefix(p, exp + tail, now + "~");
    } else {
      DigitOrder(now, exp);
      BelowExtend(now, exp, "~", tail);
      BelowCommonPrefix(p, now + "~", exp + tail);
      BelowAsymmetric(p + (now + "~"), p + (exp + tail));
    }
  }

  lemma SeparatorBeforeTilde(e: string, tail: string)
    requires |tail| > 0 && tail[0] < '~'
    ensures Below(e + tail, e + "~")
  {
    assert Below(tail, "~");
    BelowCommonPrefix(e, tail, "~");
  }

  /** The scan boundary for the padded rendering used throughout the model. */
  lemma PaddedScanBoundary(exp: nat, now: nat, sep: string, key: string)
    requires exp < Pow10(WIDTH) && now < Pow10(WIDTH)
    requires GoodSeparator(sep)
    ensures InScan(ExpirationKey(Pad(exp), sep, key), Pad(now)) <==> exp <= now
  {
    ScanBoundary(Pad(exp), Pad(now), sep, key);
  }

  /** As written, the source renders both timestamps with `String(n)`. Once the
      deadline has one digit more than the clock, its reverse-index key sorts
      inside the scan range although the deadline is still in the future:
      at now = 9 a key with ttl 1 (deadline 10) is swept immediately. */
  lemma UnpaddedScanSweepsEarly()
    ensures var exp := Decimal(9 + 1);
            InScan(ExpirationKey(exp, DEFAULT_SEPARATOR, "k"), Decimal(9)) && Value(exp) > 9
  {
    var exp := Decimal(10);
    assert exp == ['1', '0'];
    assert Decimal(9) == ['9'];
    var k := ExpirationKey(exp, DEFAULT_SEPARATOR, "k");
    var e := ScanEnd(Decimal(9));
    assert k == START + ['1', '0', '!', 'k'];
    assert e == START + ['9', '~'];
    assert Below(['1', '0', '!', 'k'], ['9', '~']);
    BelowCommonPrefix(START, ['1', '0', '!', 'k'], ['9', '~']);
    PrefixAtMost(START, ['1', '0', '!', 'k']);
  }
}
