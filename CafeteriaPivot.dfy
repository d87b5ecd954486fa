/**
 * CafeteriaPivotRow: one category (face list) of the cafeteria report with its
 * breakfast, lunch and dinner counts, and the row total computed in Java int
 * arithmetic.
 */
module CafeteriaPivot {
  import opened Wrappers
  import Decimal

  /** A Java int. */
  type Int32 = x: int | Decimal.IntMin <= x <= Decimal.IntMax

  /** 2^32, the modulus of int arithmetic. */
  const IntModulus: int := 0x1_0000_0000

  /** The int that Java's + yields for a mathematical sum: wrapped into range. */
  function WrapInt(n: int): (r: Int32)
    ensures (r - n) % IntModulus == 0
    ensures Decimal.IntMin <= n <= Decimal.IntMax ==> r == n
  {
    (n - Decimal.IntMin) % IntModulus + Decimal.IntMin
  }

  /** The record: a (nullable) category and three int counts. */
  datatype CafeteriaPivotRow = CafeteriaPivotRow(category: Option<string>, breakfast: Int32, lunch: Int32, dinner: Int32) {
    /** total(): breakfast + lunch + dinner, as int addition. */
    function Total(): Int32 {
      WrapInt(WrapInt(breakfast + lunch) + dinner)
    }
  }

  /** Without overflow the total is the plain sum of the three counts. */
  lemma TotalIsSum(row: CafeteriaPivotRow)
    requires Decimal.IntMin <= row.breakfast + row.lunch + row.dinner <= Decimal.IntMax
    requires Decimal.IntMin <= row.breakfast + row.lunch <= Decimal.IntMax
    ensures row.Total() == row.breakfast + row.lunch + row.dinner
  {
  }

  /** With counts that are sizes (non-negative) and a total within the int range,
      the total is at least each count. */
  lemma TotalBoundsCounts(row: CafeteriaPivotRow)
    requires row.breakfast >= 0 && row.lunch >= 0 && row.dinner >= 0
    requires row.breakfast + row.lunch + row.dinner <= Decimal.IntMax
    ensures row.Total() >= row.breakfast && row.Total() >= row.lunch && row.Total() >= row.dinner
  {
    TotalIsSum(row);
  }

  /** A row (1, 2, 3) has total 6. */
  lemma TotalExample(category: Option<string>)
    ensures CafeteriaPivotRow(category, 1, 2, 3).Total() == 6
  {
  }

  /** The total is taken modulo 2^32: one past Integer.MAX_VALUE is Integer.MIN_VALUE. */
  lemma TotalWraps(category: Option<string>)
    ensures CafeteriaPivotRow(category, Decimal.IntMax, 1, 0).Total() == Decimal.IntMin
  {
  }
}
