/**
 Tables of powers of a root of unity in bit-reversed order. If g^1024 is -1 modulo q and
 g * gi is 1, then s(k) = g^rev(k) and its inverse satisfy the recurrences of NttTree.
 */
module RootTables {
  import opened Words
  import opened Residues
  import opened NttTree

  /** The b low bits of x in reverse order. */
  function Rev(x: nat, b: nat): nat
    decreases b
  {
    if b == 0 then 0 else (if x % 2 == 1 then Pow2(b - 1) else 0) + Rev(x / 2, b - 1)
  }

  lemma {:induction false} RevBound(x: nat, b: nat)
    ensures Rev(x, b) < Pow2(b)
    decreases b
  {
    if b > 0 { RevBound(x / 2, b - 1); }
  }

  lemma {:induction false} RevWiden(x: nat, b: nat)
    requires x < Pow2(b)
    ensures Rev(x, b + 1) == 2 * Rev(x, b)
    decreases b
  {
    if b > 0 { RevWiden(x / 2, b - 1); }
  }

  /** rev(2k) is half of rev(k), and rev(2k + 1) is that plus 2^(b-1). */
  lemma RevChildren(k: nat, b: nat)
    requires b > 0 && 2 * k + 1 < Pow2(b)
    ensures 2 * Rev(2 * k, b) == Rev(k, b)
    ensures 2 * Rev(2 * k + 1, b) == Pow2(b) + Rev(k, b)
  {
    RevWiden(k, b - 1);
  }

  /** Entry k is g^rev(k) modulo q, for k below 2^b. */
  function Powers(g: int, q: int, b: nat): (r: seq<int>)
    requires q > 0
    ensures |r| == Pow2(b)
  {
    seq(Pow2(b), k requires 0 <= k < Pow2(b) => Pow(g, Rev(k, b)) % q)
  }

  function TablesOf(g: int, gi: int, q: int, b: nat): (t: Tables)
    requires q > 0
  {
    Tables(q, Powers(g, q, b), Powers(gi, q, b))
  }

  lemma SquareOfPower(g: int, e: nat, q: int)
    requires q > 0
    ensures Cong((Pow(g, e) % q) * (Pow(g, e) % q), Pow(g, 2 * e), q)
  {
    var w := Pow(g, e);
    CongMod(w, q);
    PowAdd(g, e, e);
    hide *;
    CongMul(w % q, w, w % q, w, q);
  }

  lemma {:induction false} PowInverse(g: int, gi: int, e: nat, q: int)
    requires q > 0 && Cong(g * gi, 1, q)
    ensures Cong(Pow(g, e) * Pow(gi, e), 1, q)
  {
    if e > 0 {
      PowInverse(g, gi, e - 1, q);
      var u, v := Pow(g, e - 1), Pow(gi, e - 1);
      assert Pow(g, e) == g * u && Pow(gi, e) == gi * v;
      hide *;
      CongMul(g * gi, 1, u * v, 1, q);
      MulAssoc(g, gi, u * v);
      MulAssoc(u, gi, v);
      MulAssoc(g, u, gi * v);
      assert (g * u) * (gi * v) == (g * gi) * (u * v);
      assert 1 * 1 == 1;
    }
  }

  lemma NegatePower(g: int, e: nat, half: nat, q: int)
    requires q > 0 && Cong(Pow(g, half), -1, q)
    ensures Cong(Pow(g, half + e), -(Pow(g, e) % q), q)
  {
    PowAdd(g, half, e);
    var w := Pow(g, e);
    CongMod(w, q);
    hide *;
    CongMul(Pow(g, half), -1, w, w % q, q);
  }

  lemma EntryValid(g: int, gi: int, q: int, b: nat, m: nat)
    requires q > 1 && b > 0 && 1 <= m < Pow2(b)
    requires Cong(Pow(g, Pow2(b)), -1, q) && Cong(g * gi, 1, q)
    ensures TablesOf(g, gi, q, b).NodeValid(m)
  {
    var t := TablesOf(g, gi, q, b);
    var e := Rev(m, b);
    hide Cong, Pow, Rev;
    SquareOfPower(g, e, q);
    PowInverse(g, gi, e, q);
    CongMod(Pow(g, e), q);
    CongMod(Pow(gi, e), q);
    CongMul(Pow(g, e) % q, Pow(g, e), Pow(gi, e) % q, Pow(gi, e), q);
    CongTrans(t.tw[m] * t.itw[m], Pow(g, e) * Pow(gi, e), 1, q);
    if m == 1 {
      RevOne(b);
      CongTrans(t.tw[m] * t.tw[m], Pow(g, 2 * e), -1, q);
    } else {
      var p := m / 2;
      RevChildren(p, b);
      if m % 2 == 0 {
        CongMod(Pow(g, Rev(p, b)), q);
        CongTrans(t.tw[m] * t.tw[m], Pow(g, 2 * e), t.tw[p], q);
      } else {
        NegatePower(g, Rev(p, b), Pow2(b), q);
        CongTrans(t.tw[m] * t.tw[m], Pow(g, 2 * e), -t.tw[p], q);
      }
    }
  }

  lemma {:induction false} RevOne(b: nat)
    requires b > 0
    ensures 2 * Rev(1, b) == Pow2(b)
  {
    RevZero(b - 1);
  }

  lemma {:induction false} RevZero(b: nat)
    ensures Rev(0, b) == 0
  {
    if b > 0 {
      RevZero(b - 1);
    }
  }

  /** The table of a primitive root of X^(2^b) + 1 satisfies the recurrences of the transform. */
  lemma TablesValid(g: int, gi: int, q: int, b: nat)
    requires q > 1 && b > 0 && Cong(Pow(g, Pow2(b)), -1, q) && Cong(g * gi, 1, q)
    ensures TablesOf(g, gi, q, b).Valid()
    ensures forall k: nat :: k <= b ==> TablesOf(g, gi, q, b).Covers(k, 1)
  {
    var t := TablesOf(g, gi, q, b);
    forall m | 1 <= m < |t.tw| ensures t.NodeValid(m) {
      EntryValid(g, gi, q, b, m);
    }
    forall k: nat | k <= b ensures t.Covers(k, 1) {
      Pow2Monotone(k, b);
      CoversBelow(t, k, 1);
    }
  }
}
