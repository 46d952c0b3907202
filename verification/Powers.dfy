/** Powers of two, as the shifts of the coordinate arithmetic and the sizes of perfect trees use them. */
module Powers {
  function Pow2(n: nat): (p: nat)
    ensures p > n
  {
    if n == 0 then 1 else 2 * Pow2(n - 1)
  }

  lemma Pow2Unfold(n: nat)
    ensures Pow2(0) == 1 && Pow2(n + 1) == 2 * Pow2(n)
  {
  }

  lemma {:induction false} Pow2Sum(a: nat, b: nat)
    ensures Pow2(a + b) == Pow2(a) * Pow2(b)
  {
    if a == 0 {
      Pow2Unfold(0);
    } else {
      Pow2Sum(a - 1, b);
      Pow2Unfold(a - 1);
      Pow2Unfold(a + b - 1);
      hide Pow2;
      MulAssociates(2, Pow2(a - 1), Pow2(b));
    }
  }

  lemma MulAssociates(x: int, y: int, z: int)
    ensures (x * y) * z == x * (y * z)
  {
  }
}
