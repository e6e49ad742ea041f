/** Division in Z_q[X]/(X^n + 1), pointwise on the transforms, as in crypto/vrfy.c. */
module Division {
  import opened Words
  import opened Residues
  import opened Polynomials
  import opened NttTree
  import opened Convolution
  import opened MqDivision
  import opened MqTransform
  import opened MqInverse

  /** No value of f at a root of X^n + 1 vanishes modulo q. */
  ghost predicate NonzeroEverywhere(f: Poly, logn: nat)
    requires logn <= 10 && |f| == Pow2(logn)
  {
    forall i :: 0 <= i < Pow2(logn) ==> Value(MqTables(), f, logn, i) % 12289 != 0
  }

  /** h * f is g modulo q and X^n + 1. */
  ghost predicate IsQuotient(h: Poly, g: Poly, f: Poly)
    requires |f| == |g| == |h| > 0
  {
    Reduce(Product(f, h), 12289) == Reduce(g, 12289)
  }

  /** The quotient by an f without zeros is unique. */
  lemma QuotientUnique(h: Poly, h': Poly, g: Poly, f: Poly, logn: nat)
    requires logn <= 10 && |f| == |g| == |h| == |h'| == Pow2(logn) && NonzeroEverywhere(f, logn)
    requires Canonical(h, 12289) && Canonical(h', 12289)
    requires IsQuotient(h, g, f) && IsQuotient(h', g, f)
    ensures h == h'
  {
    var t := MqTables();
    MqReady(logn);
    InvNMeaning(logn);
    hide Value, Product, Pow2, Cong, MqTables, Forward, InvN;
    ModulusIsQ();
    forall i | 0 <= i < Pow2(logn) ensures Cong(Value(t, h, logn, i), Value(t, h', logn, i), 12289) {
      QuotientValue(h, g, f, logn, i);
      QuotientValue(h', g, f, logn, i);
      CancelValue(Value(t, f, logn, i), Value(t, h, logn, i), Value(t, h', logn, i), Value(t, g, logn, i));
    }
    ValuesDetermine(t, h, h', logn, InvN(logn));
    ReduceCanonical(h, 12289);
    ReduceCanonical(h', 12289);
  }

  /** Pointwise meaning of a quotient. */
  lemma QuotientValue(h: Poly, g: Poly, f: Poly, logn: nat, i: nat)
    requires logn <= 10 && |f| == |g| == |h| == Pow2(logn) && i < Pow2(logn) && IsQuotient(h, g, f)
    ensures var t := MqTables();
      Cong(Value(t, f, logn, i) * Value(t, h, logn, i), Value(t, g, logn, i), 12289)
  {
    var t := MqTables();
    MqReady(logn);
    hide Cong, MqTables, Product, Forward, Value, Reduce;
    ModulusIsQ();
    ValueProduct(t, f, h, logn, i);
    ForwardValue(t, Product(f, h), logn, i);
    ForwardValue(t, g, logn, i);
    CongMeaning(Value(t, Product(f, h), logn, i), Value(t, g, logn, i), 12289);
    CongTrans(Value(t, f, logn, i) * Value(t, h, logn, i), Value(t, Product(f, h), logn, i), Value(t, g, logn, i), 12289);
  }

  /** A quotient from its pointwise meaning. */
  lemma QuotientFromValues(h: Poly, g: Poly, f: Poly, logn: nat)
    requires logn <= 10 && |f| == |g| == |h| == Pow2(logn)
    requires var t := MqTables(); forall i :: 0 <= i < Pow2(logn) ==>
      Cong(Value(t, f, logn, i) * Value(t, h, logn, i), Value(t, g, logn, i), 12289)
    ensures IsQuotient(h, g, f)
  {
    var t := MqTables();
    MqReady(logn);
    InvNMeaning(logn);
    hide Value, Product, Pow2, Cong, MqTables, InvN, Reduce;
    ModulusIsQ();
    forall i | 0 <= i < Pow2(logn) ensures Cong(Value(t, Product(f, h), logn, i), Value(t, g, logn, i), 12289) {
      ValueProduct(t, f, h, logn, i);
      CongTrans(Value(t, Product(f, h), logn, i), Value(t, f, logn, i) * Value(t, h, logn, i), Value(t, g, logn, i), 12289);
    }
    ValuesDetermine(t, Product(f, h), g, logn, InvN(logn));
  }

  lemma CancelValue(f: int, x: int, y: int, g: int)
    requires f % 12289 != 0 && Cong(f * x, g, 12289) && Cong(f * y, g, 12289)
    ensures Cong(x, y, 12289)
  {
    var fi := InverseExists(f % 12289);
    hide Cong;
    CongMod(f, 12289);
    CongScale(fi, f % 12289, f, 12289);
    assert fi * (f % 12289) == (f % 12289) * fi && fi * f == f * fi;
    CongTrans(f * fi, (f % 12289) * fi, 1, 12289);
    CongTrans(f * x, g, f * y, 12289);
    CongCancel(f, fi, x, y, 12289);
  }

  /** f has an inverse modulo q and X^n + 1 exactly when it vanishes at no root. */
  lemma InvertibleIff(f: Poly, logn: nat)
    requires logn <= 10 && |f| == Pow2(logn)
    ensures NonzeroEverywhere(f, logn) <==>
      exists u: Poly :: |u| == |f| && IsQuotient(u, [1] + Zeros(|f| - 1), f)
  {
    var one := [1] + Zeros(|f| - 1);
    hide Value, Product, Cong, IsQuotient;
    if NonzeroEverywhere(f, logn) {
      var u := InverseOf(f, logn);
    }
    if u: Poly :| |u| == |f| && IsQuotient(u, one, f) {
      forall i | 0 <= i < Pow2(logn) ensures Value(MqTables(), f, logn, i) % 12289 != 0 {
        QuotientValue(u, one, f, logn, i);
        ValueOfOne(logn, i);
        NonzeroFactor(Value(MqTables(), f, logn, i), Value(MqTables(), u, logn, i));
      }
    }
  }

  lemma NonzeroFactor(x: int, y: int)
    requires Cong(x * y, 1, 12289)
    ensures x % 12289 != 0
  {
    hide Cong;
    assert y * x == x * y;
    CongMeaning(x, 0, 12289);
    CongMeaning(x * y, 1, 12289);
    if x % 12289 == 0 {
      CongScale(y, x, 0, 12289);
      CongMeaning(y * x, y * 0, 12289);
    }
  }

  lemma ValueOfOne(logn: nat, i: nat)
    requires logn <= 10 && i < Pow2(logn)
    ensures Value(MqTables(), [1] + Zeros(Pow2(logn) - 1), logn, i) == 1
  {
    hide Eval, Point, Zeros, MqTables;
    var x := Point(MqTables(), logn, 1, i);
    EvalConcat([1], Zeros(Pow2(logn) - 1), x);
    EvalConstant([1], x);
    EvalZeros(Pow2(logn) - 1, x);
  }

  lemma InverseOf(f: Poly, logn: nat) returns (u: Poly)
    requires logn <= 10 && |f| == Pow2(logn) && NonzeroEverywhere(f, logn)
    ensures |u| == |f| && IsQuotient(u, [1] + Zeros(|f| - 1), f)
  {
    var t := MqTables();
    hide Value, Product, Cong, IsQuotient, Forward, Backward, MqDiv, MqTables, InvN, Point, Eval;
    MqReady(logn);
    var one := [1] + Zeros(|f| - 1);
    var v := seq(Pow2(logn), i requires 0 <= i < Pow2(logn) => MqDiv(1, Value(t, f, logn, i) % 12289) as int);
    forall i | 0 <= i < |v| ensures 0 <= v[i] < 12289 && v[i] == MqDiv(1, Value(t, f, logn, i) % 12289) {
      MqDivMeaning(1, Value(t, f, logn, i) % 12289);
    }
    u := Backward(t, v, logn, InvN(logn));
    forall i | 0 <= i < Pow2(logn) ensures Cong(Value(t, f, logn, i) * Value(t, u, logn, i), Value(t, one, logn, i), 12289) {
      ValueOfOne(logn, i);
      DividedValue(f, one, v, u, logn, i);
    }
    QuotientFromValues(u, one, f, logn);
  }

  /** If v holds the pointwise quotients of g by f, its inverse transform is a quotient at point i. */
  lemma DividedValue(f: Poly, g: Poly, v: Poly, u: Poly, logn: nat, i: nat)
    requires logn <= 10 && |f| == |g| == |v| == Pow2(logn) && i < Pow2(logn) && Canonical(v, 12289)
    requires u == Backward(MqTables(), v, logn, InvN(logn))
    requires Value(MqTables(), f, logn, i) % 12289 != 0
    requires v[i] == MqDiv(Value(MqTables(), g, logn, i) % 12289, Value(MqTables(), f, logn, i) % 12289)
    ensures Cong(Value(MqTables(), f, logn, i) * Value(MqTables(), u, logn, i), Value(MqTables(), g, logn, i), 12289)
  {
    var t := MqTables();
    MqReady(logn);
    InvNMeaning(logn);
    hide Value, Cong, Forward, MqDiv, MqTables, InvN;
    ModulusIsQ();
    ForwardBackward(t, v, logn, InvN(logn));
    BackwardMeaning(v, logn);
    ReduceCanonical(u, 12289);
    ForwardValue(t, u, logn, i);
    var x, y := Value(t, f, logn, i), Value(t, g, logn, i);
    MqDivMeaning(y % 12289, x % 12289);
    DividedScalar(x, y, Value(t, u, logn, i), v[i]);
  }

  lemma DividedScalar(x: int, y: int, u: int, d: int)
    requires Cong(d * (x % 12289), y % 12289, 12289) && d == u % 12289
    ensures Cong(x * u, y, 12289)
  {
    hide *;
    CongMod(x, 12289);
    CongMod(y, 12289);
    CongMod(u, 12289);
    CongMul(d, u, x % 12289, x, 12289);
    assert u * x == x * u;
    CongTrans(x * u, d * (x % 12289), y % 12289, 12289);
    CongTrans(x * u, y % 12289, y, 12289);
  }
}
