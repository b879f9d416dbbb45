/** The larger and the smaller of two numbers. */
module Numbers {
  function Max(x: int, y: int): int { if x > y then x else y }

  function Min(x: nat, y: nat): nat { if x <= y then x else y }
}
