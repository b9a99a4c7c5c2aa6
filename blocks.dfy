/**
 * The block catalog entry the compaction selectors work on, the result shape
 * they share, and the time and integer arithmetic the time-window selector
 * needs (Go's `Time.Unix`, truncating `int64` division and `%v` rendering of
 * an integer).
 */
module Blocks {

  /** The four fields of `backend.BlockMeta` the selectors read. Times are
      nanoseconds since the Unix epoch. */
  datatype BlockMeta = BlockMeta(
    tenantId: string,
    startTime: int,
    endTime: int,
    totalObjects: int)

  /** What one call of a selector's `BlocksToCompact` produces: the chosen
      blocks (`[]` stands for Go's nil), the grouping key (`""` when nothing
      was chosen) and the selector's cursor after the call. */
  datatype Step = Step(blocks: seq<BlockMeta>, key: string, cursor: nat)

  /** `time.Second` as a `time.Duration`. */
  const NanosPerSecond: int := 1_000_000_000

  function Abs(x: int): nat {
    if x < 0 then -x else x
  }

  function Max(a: int, b: int): int {
    if a < b then b else a
  }

  /** `Time.Unix`: whole seconds since the epoch, rounded towards minus
      infinity (a time keeps its nanoseconds in [0, 1e9) apart from its
      seconds). */
  function Unix(t: int): (s: int)
    ensures s * NanosPerSecond <= t < (s + 1) * NanosPerSecond
  {
    t / NanosPerSecond
  }

  /** Go's integer `/`, which truncates towards zero: the magnitude of the
      quotient is the floor of the magnitudes, and it is negative only when
      the operands have opposite signs. */
  function TruncDiv(a: int, b: int): (q: int)
    requires b != 0
    ensures Abs(q) == Abs(a) / Abs(b)
    ensures q < 0 ==> (a < 0) != (b < 0)
  {
    NonNegDiv(Abs(a), Abs(b));
    if a >= 0 && b > 0 then a / b
    else if a >= 0 then -(a / -b)
    else if b > 0 then -(-a / b)
    else -a / -b
  }

  lemma NonNegDiv(x: int, y: int)
    requires x >= 0 && y > 0
    ensures x / y >= 0
  {
  }

  /** The remainder left by `TruncDiv` is smaller than the divisor in
      magnitude and never has the opposite sign of the dividend; this pins
      the quotient down uniquely. */
  lemma TruncDivSpec(a: int, b: int)
    requires b != 0
    ensures var r := a - TruncDiv(a, b) * b;
      Abs(r) < Abs(b) && (r == 0 || (r > 0 <==> a > 0))
  {
    if a >= 0 {
      NonNegRemainder(a, b);
    } else {
      NegRemainder(a, b);
    }
  }

  lemma NonNegRemainder(a: int, b: int)
    requires a >= 0 && b != 0
    ensures 0 <= a - TruncDiv(a, b) * b < Abs(b)
  {
    if b > 0 {
      assert TruncDiv(a, b) == a / b;
      FloorRemainder(a, b, a / b);
    } else {
      assert TruncDiv(a, b) * b == (a / -b) * -b;
      FloorRemainder(a, -b, a / -b);
    }
  }

  lemma NegRemainder(a: int, b: int)
    requires a < 0 && b != 0
    ensures a - TruncDiv(a, b) * b <= 0 && Abs(b) + (a - TruncDiv(a, b) * b) > 0
  {
    if b > 0 {
      assert TruncDiv(a, b) * b == -((-a / b) * b);
      FloorRemainder(-a, b, -a / b);
    } else {
      assert TruncDiv(a, b) * b == -((-a / -b) * -b);
      FloorRemainder(-a, -b, -a / -b);
    }
  }

  /** The remainder of floor division of a non-negative number. */
  lemma FloorRemainder(x: int, d: int, q: int)
    requires x >= 0 && d > 0 && q == x / d
    ensures 0 <= x - q * d < d
  {
    assert x - q * d == x % d;
  }

  /** `MaxCompactionRange / time.Second` converted to `int64`: the width of
      one time window in whole seconds. */
  function WindowSeconds(maxCompactionRange: int): (ws: int)
    ensures ws == 0 <==> Abs(maxCompactionRange) < NanosPerSecond
    ensures ws > 0 <==> maxCompactionRange >= NanosPerSecond
  {
    TruncDiv(maxCompactionRange, NanosPerSecond)
  }

  /** `windowForBlock`: the id of the time window a block starts in. */
  function WindowForBlock(b: BlockMeta, maxCompactionRange: int): (w: int)
    requires WindowSeconds(maxCompactionRange) != 0
    ensures var u, ws := Unix(b.startTime), WindowSeconds(maxCompactionRange);
      Abs(u - w * ws) < Abs(ws) && (u - w * ws == 0 || (u - w * ws > 0 <==> u > 0))
  {
    TruncDivSpec(Unix(b.startTime), WindowSeconds(maxCompactionRange));
    TruncDiv(Unix(b.startTime), WindowSeconds(maxCompactionRange))
  }

  /** For a positive window width and a block that starts at or after the
      epoch, the window id is the floor of the start second over the width,
      so the window covers [w * width, (w + 1) * width) seconds. */
  lemma WindowBounds(b: BlockMeta, maxCompactionRange: int)
    requires WindowSeconds(maxCompactionRange) > 0 && b.startTime >= 0
    ensures var w, ws := WindowForBlock(b, maxCompactionRange), WindowSeconds(maxCompactionRange);
      w >= 0 && w * ws <= Unix(b.startTime) < (w + 1) * ws
  {
    var w, ws, u := WindowForBlock(b, maxCompactionRange), WindowSeconds(maxCompactionRange), Unix(b.startTime);
    assert w == u / ws && u >= 0;
    FloorDivBounds(u, ws);
  }

  /** Window ids never decrease along start times, before the epoch as well
      as after it, so in a catalog sorted by start time the blocks of one
      window are contiguous. */
  lemma WindowMonotone(b1: BlockMeta, b2: BlockMeta, maxCompactionRange: int)
    requires WindowSeconds(maxCompactionRange) > 0
    requires b1.startTime <= b2.startTime
    ensures WindowForBlock(b1, maxCompactionRange) <= WindowForBlock(b2, maxCompactionRange)
  {
    UnixMonotone(b1.startTime, b2.startTime);
    TruncDivMonotone(Unix(b1.startTime), Unix(b2.startTime), WindowSeconds(maxCompactionRange));
  }

  lemma UnixMonotone(t1: int, t2: int)
    requires t1 <= t2
    ensures Unix(t1) <= Unix(t2)
  {
    var s1, s2 := Unix(t1), Unix(t2);
    assert s1 * NanosPerSecond <= t1 <= t2 < (s2 + 1) * NanosPerSecond;
    MulCancel(s1, s2 + 1, NanosPerSecond);
  }

  /** Truncating division by a positive divisor is monotone. */
  lemma TruncDivMonotone(u1: int, u2: int, d: int)
    requires u1 <= u2 && d > 0
    ensures TruncDiv(u1, d) <= TruncDiv(u2, d)
  {
    if u1 >= 0 {
      FloorDivMonotone(u1, u2, d);
    } else if u2 < 0 {
      FloorDivMonotone(-u2, -u1, d);
    } else {
      assert TruncDiv(u1, d) <= 0 <= TruncDiv(u2, d);
    }
  }

  lemma FloorDivMonotone(x: int, y: int, d: int)
    requires 0 <= x <= y && d > 0
    ensures x / d <= y / d
  {
    FloorDivBounds(x, d);
    FloorDivBounds(y, d);
    assert (x / d) * d <= x <= y < (y / d + 1) * d;
    MulCancel(x / d, y / d + 1, d);
  }

  lemma FloorDivBounds(u: int, d: int)
    requires u >= 0 && d > 0
    ensures u / d >= 0 && (u / d) * d <= u < (u / d + 1) * d
  {
    assert (u / d) * d == u - u % d;
    assert (u / d + 1) * d == (u / d) * d + d;
  }

  lemma MulCancel(a: int, b: int, c: int)
    requires c > 0 && a * c < b * c
    ensures a < b
  {
  }

  /* ---- `fmt.Sprintf("%v", ...)` of an integer ---- */

  function DigitChar(d: nat): (c: char)
    requires d < 10
  {
    (('0' as int) + d) as char
  }

  predicate IsDigit(c: char) {
    '0' <= c <= '9'
  }

  function DigitValue(c: char): nat
    requires IsDigit(c)
  {
    (c as int) - ('0' as int)
  }

  /** Decimal digits of a natural number, most significant first, with no
      leading zero. */
  function NatDecimal(n: nat): (s: string)
    ensures |s| >= 1 && (s[0] == '0' ==> s == "0")
    ensures forall k :: 0 <= k < |s| ==> IsDigit(s[k])
  {
    if n < 10 then [DigitChar(n)] else NatDecimal(n / 10) + [DigitChar(n % 10)]
  }

  /** `%v` of an `int64`: a minus sign for negative values, then the digits. */
  function Decimal(i: int): (s: string)
    ensures |s| >= 1 && (s[0] == '-' <==> i < 0)
    ensures forall k :: (if i < 0 then 1 else 0) <= k < |s| ==> IsDigit(s[k])
  {
    if i < 0 then "-" + NatDecimal(-i) else NatDecimal(i)
  }

  function ParseNat(s: string): nat
    requires forall k :: 0 <= k < |s| ==> IsDigit(s[k])
  {
    if s == [] then 0 else ParseNat(s[..|s| - 1]) * 10 + DigitValue(s[|s| - 1])
  }

  /** Reads back what `Decimal` writes. */
  function ParseDecimal(s: string): int {
    if |s| > 0 && s[0] == '-' && forall k :: 1 <= k < |s| ==> IsDigit(s[k]) then
      0 - ParseNat(s[1..])
    else if forall k :: 0 <= k < |s| ==> IsDigit(s[k]) then
      ParseNat(s)
    else
      0
  }

  lemma {:induction false} NatDecimalRoundTrip(n: nat)
    ensures ParseNat(NatDecimal(n)) == n
  {
    if n >= 10 {
      var s := NatDecimal(n);
      assert s[..|s| - 1] == NatDecimal(n / 10);
      NatDecimalRoundTrip(n / 10);
    }
  }

  /** Rendering an integer loses nothing: parsing the text gives it back. */
  lemma DecimalRoundTrip(i: int)
    ensures ParseDecimal(Decimal(i)) == i
  {
    var s := Decimal(i);
    if i < 0 {
      NatDecimalRoundTrip(-i);
      assert s[1..] == NatDecimal(-i);
    } else {
      NatDecimalRoundTrip(i);
      assert s[0] != '-';
    }
  }

  /** The key `"<tenant>-<window>"` built at line 101. */
  function WindowKey(tenantId: string, window: int): (k: string)
    ensures |k| > |tenantId| + 1 && k[..|tenantId|] == tenantId && k[|tenantId|] == '-'
    ensures ParseDecimal(k[|tenantId| + 1..]) == window
  {
    var k := tenantId + "-" + Decimal(window);
    assert k[|tenantId| + 1..] == Decimal(window);
    DecimalRoundTrip(window);
    k
  }

  /** For one tenant, the key names its window unambiguously. */
  lemma WindowKeyInjective(tenantId: string, w1: int, w2: int)
    requires WindowKey(tenantId, w1) == WindowKey(tenantId, w2)
    ensures w1 == w2
  {
    var prefix := tenantId + "-";
    assert WindowKey(tenantId, w1)[|prefix|..] == Decimal(w1);
    assert WindowKey(tenantId, w2)[|prefix|..] == Decimal(w2);
    DecimalRoundTrip(w1);
    DecimalRoundTrip(w2);
  }
}
