/** Python's min and max on two integers, shared by the region merge and the
    peripheral sizing. */
module Numbers {

  function Min(a: int, b: int): int { if a <= b then a else b }

  function Max(a: int, b: int): int { if a >= b then a else b }
}
