/** Row counts and byte sizes shortened with a unit suffix: what the printed number still tells. */
module Units {

  datatype Suffix = NoSuffix | K | M | B | KB | MB | GB

  /** What a suffix multiplies by: thousands for counts, powers of 1024 for bytes. */
  function Scale(suffix: Suffix): real {
    match suffix
    case NoSuffix => 1.0
    case K => 1_000.0
    case M => 1_000_000.0
    case B => 1.0
    case KB => 1024.0
    case MB => 1024.0 * 1024.0
    case GB => 1024.0 * 1024.0 * 1024.0
  }

  /** A printed number: its digits read as an integer, whether the last one is a decimal place, and the
      suffix. `12.3K` is the digits 123 with a decimal place and the suffix K. */
  datatype Shown = Shown(digits: int, tenths: bool, suffix: Suffix)

  /** What one unit of the last digit is worth. */
  function Step(tenths: bool, suffix: Suffix): (r: real)
    ensures r > 0.0
  {
    if tenths then Scale(suffix) / 10.0 else Scale(suffix)
  }

  /** The number a reader takes the text to mean. */
  function ReadBack(s: Shown): real { s.digits as real * Step(s.tenths, s.suffix) }

  /** A rounding to the nearest integer that never reverses order, ties going either way. */
  ghost predicate RoundsToNearest(round: real -> int) {
    && (forall x: real :: -0.5 <= round(x) as real - x <= 0.5)
    && (forall x: real, y: real | x <= y :: round(x) <= round(y))
  }

  function Rounded(round: real -> int, num: int, tenths: bool, suffix: Suffix): Shown {
    Shown(round(num as real / Step(tenths, suffix)), tenths, suffix)
  }

  /** `_format_rows` on a number: one decimal place of millions or thousands. */
  function FormatRows(round: real -> int, num: int): Shown {
    if num >= 1_000_000 then Rounded(round, num, true, M)
    else if num >= 1_000 then Rounded(round, num, true, K)
    else Shown(num, false, NoSuffix)
  }

  /** `_format_bytes`: one decimal place of GB or MB, whole KB. */
  function FormatBytes(round: real -> int, num: int): Shown {
    if num >= 1_073_741_824 then Rounded(round, num, true, GB)
    else if num >= 1_048_576 then Rounded(round, num, true, MB)
    else if num >= 1024 then Rounded(round, num, false, KB)
    else Shown(num, false, B)
  }

  /** Within half a unit of the last digit printed. */
  ghost predicate Faithful(s: Shown, num: int) {
    var error := ReadBack(s) - num as real;
    if s.suffix == NoSuffix || s.suffix == B then error == 0.0
    else -Step(s.tenths, s.suffix) <= error + error <= Step(s.tenths, s.suffix)
  }

  lemma Spread(a: real, b: real, step: real)
    ensures (a - b) * step == a * step - b * step
  {
  }

  lemma QuotientTimes(x: real, step: real)
    requires step > 0.0
    ensures x / step * step == x
  {
  }

  lemma ScaleKeepsOrder(a: real, b: real, step: real)
    requires a <= b && step > 0.0
    ensures a * step <= b * step
  {
    assert (b - a) * step >= 0.0;
    Spread(b, a, step);
  }

  lemma ScaleKeepsStrictOrder(a: real, b: real, step: real)
    requires a < b && step > 0.0
    ensures a * step < b * step
  {
    assert (b - a) * step > 0.0;
    Spread(b, a, step);
  }

  lemma NearestFaithful(round: real -> int, x: real, step: real)
    requires RoundsToNearest(round) && step > 0.0
    ensures var back := round(x / step) as real * step; -step <= (back - x) + (back - x) <= step
  {
    QuotientTimes(x, step);
    ErrorScales(round(x / step) as real, x / step, x, step);
  }

  lemma RoundedFaithful(round: real -> int, num: int, tenths: bool, suffix: Suffix)
    requires RoundsToNearest(round) && suffix != NoSuffix && suffix != B
    ensures Faithful(Rounded(round, num, tenths, suffix), num)
  {
    NearestFaithful(round, num as real, Step(tenths, suffix));
  }

  lemma HalfScales(e: real, product: real, step: real)
    requires e <= 0.5 && step > 0.0 && product == e * step
    ensures product + product <= step
  {
    var slack := 0.5 - e;
    assert slack * step >= 0.0;
    assert slack * step == 0.5 * step - product;
  }

  lemma ErrorScales(r: real, q: real, x: real, step: real)
    requires -0.5 <= r - q <= 0.5 && step > 0.0 && q * step == x
    ensures -step <= r * step - x + (r * step - x) <= step
  {
    var above, below := (r - q) * step, (q - r) * step;
    assert above == r * step - x by { Spread(r, q, step); }
    assert below == x - r * step by { Spread(q, r, step); }
    HalfScales(r - q, above, step);
    HalfScales(q - r, below, step);
  }

  /** The value read back is within half a unit of the last printed digit. */
  lemma FormatsFaithful(round: real -> int, num: int)
    requires RoundsToNearest(round)
    ensures Faithful(FormatRows(round, num), num) && Faithful(FormatBytes(round, num), num)
  {
    if num >= 1_000_000 {
      RoundedFaithful(round, num, true, M);
    } else if num >= 1_000 {
      RoundedFaithful(round, num, true, K);
    }
    if num >= 1_073_741_824 {
      RoundedFaithful(round, num, true, GB);
    } else if num >= 1_048_576 {
      RoundedFaithful(round, num, true, MB);
    } else if num >= 1024 {
      RoundedFaithful(round, num, false, KB);
    }
  }

  lemma RoundsIntegers(round: real -> int, n: int)
    requires RoundsToNearest(round)
    ensures round(n as real) == n
  {
    var r := round(n as real);
    assert -0.5 <= r as real - n as real <= 0.5;
    assert (r - n) as real == r as real - n as real;
  }

  /** A number between two whole multiples of the step is rounded to a multiple between them. */
  lemma NearestBetween(round: real -> int, x: real, step: real, lo: int, hi: int)
    requires RoundsToNearest(round) && step > 0.0
    ensures x >= lo as real * step ==> round(x / step) as real * step >= lo as real * step
    ensures x <= hi as real * step ==> round(x / step) as real * step <= hi as real * step
  {
    var q := x / step;
    QuotientTimes(x, step);
    RoundsIntegers(round, lo);
    RoundsIntegers(round, hi);
    if x >= lo as real * step {
      QuotientOrder(lo as real, q, step);
      assert round(lo as real) <= round(q);
      ScaleKeepsOrder(lo as real, round(q) as real, step);
    }
    if x <= hi as real * step {
      QuotientOrder(q, hi as real, step);
      assert round(q) <= round(hi as real);
      ScaleKeepsOrder(round(q) as real, hi as real, step);
    }
  }

  lemma QuotientOrder(a: real, b: real, step: real)
    requires a * step <= b * step && step > 0.0
    ensures a <= b
  {
    if a > b { ScaleKeepsStrictOrder(b, a, step); }
  }

  lemma NearestMonotone(round: real -> int, x: real, y: real, step: real)
    requires RoundsToNearest(round) && step > 0.0 && x <= y
    ensures round(x / step) as real * step <= round(y / step) as real * step
  {
    var qx, qy := x / step, y / step;
    QuotientTimes(x, step);
    QuotientTimes(y, step);
    QuotientOrder(qx, qy, step);
    assert round(qx) <= round(qy);
    ScaleKeepsOrder(round(qx) as real, round(qy) as real, step);
  }

  lemma RoundedBetween(round: real -> int, num: int, tenths: bool, suffix: Suffix, lo: int, hi: int)
    requires RoundsToNearest(round)
    ensures var s, step := Rounded(round, num, tenths, suffix), Step(tenths, suffix);
            && (num as real >= lo as real * step ==> ReadBack(s) >= lo as real * step)
            && (num as real <= hi as real * step ==> ReadBack(s) <= hi as real * step)
  {
    NearestBetween(round, num as real, Step(tenths, suffix), lo, hi);
  }

  lemma RoundedMonotone(round: real -> int, a: int, b: int, tenths: bool, suffix: Suffix)
    requires RoundsToNearest(round) && a <= b
    ensures ReadBack(Rounded(round, a, tenths, suffix)) <= ReadBack(Rounded(round, b, tenths, suffix))
  {
    NearestMonotone(round, a as real, b as real, Step(tenths, suffix));
  }

  /** Each unit's texts read back within the unit's own range. */
  lemma RowsRange(round: real -> int, num: int)
    requires RoundsToNearest(round)
    ensures var r := ReadBack(FormatRows(round, num));
            if num >= 1_000_000 then r >= 1_000_000.0
            else if num >= 1_000 then 1_000.0 <= r <= 1_000_000.0
            else r < 1_000.0
  {
    if num >= 1_000_000 {
      RoundedBetween(round, num, true, M, 10, 10);
    } else if num >= 1_000 {
      RoundedBetween(round, num, true, K, 10, 10_000);
    }
  }

  /** More rows never read as fewer, across the unit boundaries too. */
  lemma RowsMonotone(round: real -> int, a: int, b: int)
    requires RoundsToNearest(round) && a <= b
    ensures ReadBack(FormatRows(round, a)) <= ReadBack(FormatRows(round, b))
  {
    RowsRange(round, a);
    RowsRange(round, b);
    if a >= 1_000_000 {
      RoundedMonotone(round, a, b, true, M);
    } else if 1_000 <= a && b < 1_000_000 {
      RoundedMonotone(round, a, b, true, K);
    }
  }

  lemma BytesRange(round: real -> int, num: int)
    requires RoundsToNearest(round)
    ensures var r := ReadBack(FormatBytes(round, num));
            if num >= 1_073_741_824 then r >= 1_073_741_824.0
            else if num >= 1_048_576 then 1_048_576.0 <= r <= 1_073_741_824.0
            else if num >= 1024 then 1024.0 <= r <= 1_048_576.0
            else r < 1024.0
  {
    if num >= 1_073_741_824 {
      RoundedBetween(round, num, true, GB, 10, 10);
    } else if num >= 1_048_576 {
      RoundedBetween(round, num, true, MB, 10, 10_240);
    } else if num >= 1024 {
      RoundedBetween(round, num, false, KB, 1, 1024);
    }
  }

  /** More bytes never read as fewer, across the unit boundaries too. */
  lemma BytesMonotone(round: real -> int, a: int, b: int)
    requires RoundsToNearest(round) && a <= b
    ensures ReadBack(FormatBytes(round, a)) <= ReadBack(FormatBytes(round, b))
  {
    BytesRange(round, a);
    BytesRange(round, b);
    if a >= 1_073_741_824 {
      RoundedMonotone(round, a, b, true, GB);
    } else if 1_048_576 <= a && b < 1_073_741_824 {
      RoundedMonotone(round, a, b, true, MB);
    } else if 1024 <= a && b < 1_048_576 {
      RoundedMonotone(round, a, b, false, KB);
    }
  }

  /** Being within half a step, for each unit that rounds. */
  lemma StepsInDigits(digits: int, num: int)
    ensures Faithful(Shown(digits, true, M), num) ==> -50_000 <= digits * 100_000 - num <= 50_000
    ensures Faithful(Shown(digits, true, K), num) ==> -50 <= digits * 100 - num <= 50
    ensures Faithful(Shown(digits, false, KB), num) ==> -512 <= digits * 1_024 - num <= 512
  {
    assert Step(true, M) == 100_000.0 && Step(true, K) == 100.0 && Step(false, KB) == 1_024.0;
    assert (digits * 100_000 - num) as real == digits as real * 100_000.0 - num as real;
    assert (digits * 100 - num) as real == digits as real * 100.0 - num as real;
    assert (digits * 1_024 - num) as real == digits as real * 1_024.0 - num as real;
  }

  lemma BinaryStepsInDigits(digits: int, num: int)
    ensures Faithful(Shown(digits, true, MB), num) ==>
              -1_048_576 <= 2 * (digits * 1_048_576 - 10 * num) <= 1_048_576
    ensures Faithful(Shown(digits, true, GB), num) ==>
              -1_073_741_824 <= 2 * (digits * 1_073_741_824 - 10 * num) <= 1_073_741_824
  {
    assert Step(true, MB) == 104_857.6 && Step(true, GB) == 107_374_182.4;
    assert (digits * 1_048_576 - 10 * num) as real == digits as real * 1_048_576.0 - num as real * 10.0;
    assert (digits * 1_073_741_824 - 10 * num) as real == digits as real * 1_073_741_824.0 - num as real * 10.0;
  }

  /** Which unit a row count gets, and which digits: tenths of millions or thousands to the nearest, and
      the number itself below a thousand. */
  lemma RowsShown(round: real -> int, num: int)
    requires RoundsToNearest(round)
    ensures var s := FormatRows(round, num);
            if num >= 1_000_000 then s.suffix == M && s.tenths && -50_000 <= s.digits * 100_000 - num <= 50_000
            else if num >= 1_000 then s.suffix == K && s.tenths && -50 <= s.digits * 100 - num <= 50
            else s.suffix == NoSuffix && !s.tenths && s.digits == num
  {
    FormatsFaithful(round, num);
    StepsInDigits(FormatRows(round, num).digits, num);
  }

  /** Which unit a byte size gets, and which digits: tenths of GB or MB and whole KB to the nearest, and
      the number itself below 1024. */
  lemma BytesShown(round: real -> int, num: int)
    requires RoundsToNearest(round)
    ensures var s := FormatBytes(round, num);
            if num >= 1_073_741_824 then
              && s.suffix == GB && s.tenths
              && -1_073_741_824 <= 2 * (s.digits * 1_073_741_824 - 10 * num) <= 1_073_741_824
            else if num >= 1_048_576 then
              s.suffix == MB && s.tenths && -1_048_576 <= 2 * (s.digits * 1_048_576 - 10 * num) <= 1_048_576
            else if num >= 1_024 then s.suffix == KB && !s.tenths && -512 <= s.digits * 1_024 - num <= 512
            else s.suffix == B && !s.tenths && s.digits == num
  {
    FormatsFaithful(round, num);
    StepsInDigits(FormatBytes(round, num).digits, num);
    BinaryStepsInDigits(FormatBytes(round, num).digits, num);
  }
}
