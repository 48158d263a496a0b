/** `Math.Min` and `Math.Max` on integers (Python's `min` and `max` on two ints agree). */
module IntOrder {

  function Min(a: int, b: int): int
  {
    if a <= b then a else b
  }

  function Max(a: int, b: int): int
  {
    if a >= b then a else b
  }
}
