/** Products and quotients of reals as functions whose bodies the proofs in Ranking hide, and the few
    laws those proofs use instead. */
module Reals {

  function Mul(x: real, y: real): real {
    x * y
  }

  function Ratio(x: real, n: real): real
    requires n != 0.0
  {
    x / n
  }

  lemma MulAdd(x: real, y: real, z: real)
    ensures Mul(x, y + z) == Mul(x, y) + Mul(x, z)
    ensures Mul(x, 0.0) == 0.0 && Mul(x, 1.0) == x
  {
  }

  lemma MulMixed(w: real, x: real, y: real, z: real)
    ensures Mul(Mul(w, x), Mul(y, z)) == Mul(Mul(w, y), Mul(x, z))
    ensures Mul(w, Mul(x, y)) == Mul(Mul(w, x), y) == Mul(x, Mul(w, y))
    ensures Mul(w, x) == Mul(x, w)
  {
  }

  lemma MulSign(x: real, y: real)
    ensures x >= 0.0 && y >= 0.0 ==> Mul(x, y) >= 0.0
    ensures x > 0.0 && y > 0.0 ==> Mul(x, y) > 0.0
  {
  }

  lemma Square(x: real)
    ensures Mul(x, x) >= 0.0
    ensures x != 0.0 ==> Mul(x, x) > 0.0
  {
    if x > 0.0 { MulSign(x, x); } else { MulSign(-x, -x); }
  }

  lemma NonZeroMul(x: real, y: real)
    requires x != 0.0 && y != 0.0
    ensures Mul(x, y) != 0.0
  {
    if x > 0.0 && y > 0.0 { MulSign(x, y); }
    else if x > 0.0 { MulSign(x, -y); }
    else if y > 0.0 { MulSign(-x, y); }
    else { MulSign(-x, -y); }
  }

  lemma SameFactor(x: real, y: real, z: real)
    requires x != 0.0 && Mul(x, y) == Mul(x, z)
    ensures y == z
  {
    hide Mul;
    MulAdd(x, y - z, z);
    if y - z != 0.0 { NonZeroMul(x, y - z); }
  }

  lemma SameRoot(x: real, y: real)
    requires x >= 0.0 && y >= 0.0 && Mul(x, x) == Mul(y, y)
    ensures x == y
  {
    hide Mul;
    MulAdd(x + y, x, -y);
    MulAdd(x, x, y);
    MulAdd(y, x, y);
    MulMixed(x + y, x, 0.0, 0.0);
    MulMixed(x + y, -y, 0.0, 0.0);
    MulNegative(y, x + y);
    MulMixed(x, y, 0.0, 0.0);
    assert Mul(x + y, x - y) == 0.0;
    if x + y != 0.0 && x - y != 0.0 { NonZeroMul(x + y, x - y); }
  }

  lemma MulNegative(x: real, y: real)
    ensures Mul(-x, y) == -Mul(x, y)
  {
  }

  lemma TwiceProduct(x: real, y: real)
    ensures -(Mul(x, x) + Mul(y, y)) <= 2.0 * Mul(x, y) <= Mul(x, x) + Mul(y, y)
  {
    Square(x - y);
    Square(x + y);
  }

  lemma RatioTimes(x: real, n: real)
    requires n != 0.0
    ensures Mul(n, Ratio(x, n)) == x
  {
  }
}
