/** Integer helpers shared by the rasterizer and the pool (the integer
counterparts of the helpers the source takes from its maths file). */
module Math {

  function Min(a: int, b: int): (m: int)
    ensures m <= a && m <= b && (m == a || m == b)
  {
    if a < b then a else b
  }
}
