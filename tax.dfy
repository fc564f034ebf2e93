/** The 12% withdrawal tax. The source computes Math.round(amount * 0.12) in floating point;
    for a whole-rupee amount, 12 * amount / 100 is a multiple of 0.04 and never lies halfway
    between two integers, so the rounding is exactly floor((12 * amount + 50) / 100). */
module Tax {

  const TaxPercentage := 12

  /** The tax withheld from a withdrawal of `amount`: the integer nearest to 12% of it. */
  function TaxAmount(amount: int): (tax: int)
    ensures 100 * tax - 50 <= TaxPercentage * amount < 100 * tax + 50
  {
    (TaxPercentage * amount + 50) / 100
  }

  /** What the user is paid: the amount less the tax, so tax and net add up to the amount. */
  function NetAmount(amount: int): (net: int)
    ensures net + TaxAmount(amount) == amount
  {
    amount - TaxAmount(amount)
  }

  /** The rounding rule leaves no choice: one integer lies within half a rupee of 12%. */
  lemma TaxIsNearest(amount: int, tax: int)
    requires 100 * tax - 50 <= TaxPercentage * amount < 100 * tax + 50
    ensures tax == TaxAmount(amount)
  {
  }

  /** For a non-negative amount neither part is negative and neither exceeds the amount. */
  lemma TaxWithinAmount(amount: int)
    requires amount >= 0
    ensures 0 <= TaxAmount(amount) <= amount
    ensures 0 <= NetAmount(amount) <= amount
  {
  }
}
