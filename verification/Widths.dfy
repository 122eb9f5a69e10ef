/** Integers of the width the source stores them in. */
module Widths {

  const INT_MIN := -0x8000_0000
  const INT_MAX := 0x7FFF_FFFF

  /** Storing an integer in a 32-bit signed variable. */
  function ToInt(x: int): (r: int)
    ensures INT_MIN <= r <= INT_MAX
  {
    (x + 0x8000_0000) % 0x1_0000_0000 - 0x8000_0000
  }

  lemma FitsInt(x: int)
    ensures ToInt(x) == x <==> INT_MIN <= x <= INT_MAX
  {
  }

  /** A sum may be reduced at every step. */
  lemma SumReduces(a: int, x: int)
    ensures ToInt(ToInt(a) + x) == ToInt(a + x)
  {
  }

  /** A number that does not fit is off by at least 2^32. */
  lemma OffByWord(x: int)
    ensures ToInt(x) == x || ToInt(x) <= x - 0x1_0000_0000 || ToInt(x) >= x + 0x1_0000_0000
  {
  }
}
