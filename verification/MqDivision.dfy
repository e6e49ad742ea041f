/** Division modulo q by an addition chain for the exponent q - 2, as in crypto/vrfy.c. */
module MqDivision {
  import opened Words
  import opened Residues
  import opened Fermat
  import opened Mq

  function MqDiv(x: U32, y: U32): U32 {
    var y0 := MqMontyMul(y, R2);
    var y1 := MqMontySqr(y0);
    var y2 := MqMontyMul(y1, y0);
    var y3 := MqMontyMul(y2, y1);
    var y4 := MqMontySqr(y3);
    var y5 := MqMontySqr(y4);
    var y6 := MqMontySqr(y5);
    var y7 := MqMontySqr(y6);
    var y8 := MqMontySqr(y7);
    var y9 := MqMontyMul(y8, y2);
    var y10 := MqMontyMul(y9, y8);
    var y11 := MqMontySqr(y10);
    var y12 := MqMontySqr(y11);
    var y13 := MqMontyMul(y12, y9);
    var y14 := MqMontySqr(y13);
    var y15 := MqMontySqr(y14);
    var y16 := MqMontyMul(y15, y10);
    var y17 := MqMontySqr(y16);
    var y18 := MqMontyMul(y17, y0);
    MqMontyMul(y18, x)
  }

  /** v is y^e in Montgomery representation. */
  ghost predicate MontyPower(v: nat, y: int, e: nat) {
    v < Q && Cong(v, Pow(y, e) * 0x1_0000, Q)
  }

  lemma CancelRadix16(r: int, z: int)
    requires Cong(0x1_0000 * r, 0x1_0000 * z, Q)
    ensures Cong(r, z, Q)
  {
    CongIntro(0x1_0000 * RINV, 1, 12287, Q);
    CongCancel(0x1_0000, RINV, r, z, Q);
  }

  /** Montgomery multiplication adds exponents. */
  lemma MontyPowerMul(v: nat, w: nat, y: int, e: nat, f: nat)
    requires MontyPower(v, y, e) && MontyPower(w, y, f)
    ensures MontyPower(MqMontyMul(v, w), y, e + f)
  {
    MontyMulMeaning(v, w);
    hide Cong, MqMontyMul, Pow;
    var a, b := Pow(y, e), Pow(y, f);
    CongMul(v, a * 0x1_0000, w, b * 0x1_0000, Q);
    PowAdd(y, e, f);
    MulAssoc(a, 0x1_0000, b * 0x1_0000);
    MulAssoc(a, b, 0x1_0000);
    assert (a * 0x1_0000) * (b * 0x1_0000) == 0x1_0000 * ((a * b) * 0x1_0000);
    CongTrans(0x1_0000 * MqMontyMul(v, w), v * w, 0x1_0000 * ((a * b) * 0x1_0000), Q);
    CancelRadix16(MqMontyMul(v, w), (a * b) * 0x1_0000);
  }

  lemma MontyPowerOne(y: nat)
    requires y < Q
    ensures MontyPower(MqMontyMul(y, R2), y, 1)
  {
    MontyMulMeaning(y, R2);
    hide Cong, MqMontyMul;
    CongIntro(y * R2, 0x1_0000 * (y * 0x1_0000), y * -349496, Q);
    CongTrans(0x1_0000 * MqMontyMul(y, R2), y * R2, 0x1_0000 * (y * 0x1_0000), Q);
    CancelRadix16(MqMontyMul(y, R2), y * 0x1_0000);
    assert Pow(y, 1) == y * Pow(y, 0);
  }

  /** The addition chain reaches the exponent q - 2. */
  lemma AdditionChain(x: nat, y: nat)
    requires x < Q && y < Q
    ensures MqDiv(x, y) < Q && Cong(MqDiv(x, y), x * Pow(y, 12287), Q)
  {
    hide MqMontyMul, MontyPower, Pow, Cong;
    var y0 := MqMontyMul(y, R2);             MontyPowerOne(y);
    var y1 := MqMontySqr(y0);                MontyPowerMul(y0, y0, y, 1, 1);
    var y2 := MqMontyMul(y1, y0);            MontyPowerMul(y1, y0, y, 2, 1);
    var y3 := MqMontyMul(y2, y1);            MontyPowerMul(y2, y1, y, 3, 2);
    var y4 := MqMontySqr(y3);                MontyPowerMul(y3, y3, y, 5, 5);
    var y5 := MqMontySqr(y4);                MontyPowerMul(y4, y4, y, 10, 10);
    var y6 := MqMontySqr(y5);                MontyPowerMul(y5, y5, y, 20, 20);
    var y7 := MqMontySqr(y6);                MontyPowerMul(y6, y6, y, 40, 40);
    var y8 := MqMontySqr(y7);                MontyPowerMul(y7, y7, y, 80, 80);
    var y9 := MqMontyMul(y8, y2);            MontyPowerMul(y8, y2, y, 160, 3);
    var y10 := MqMontyMul(y9, y8);           MontyPowerMul(y9, y8, y, 163, 160);
    var y11 := MqMontySqr(y10);              MontyPowerMul(y10, y10, y, 323, 323);
    var y12 := MqMontySqr(y11);              MontyPowerMul(y11, y11, y, 646, 646);
    var y13 := MqMontyMul(y12, y9);          MontyPowerMul(y12, y9, y, 1292, 163);
    var y14 := MqMontySqr(y13);              MontyPowerMul(y13, y13, y, 1455, 1455);
    var y15 := MqMontySqr(y14);              MontyPowerMul(y14, y14, y, 2910, 2910);
    var y16 := MqMontyMul(y15, y10);         MontyPowerMul(y15, y10, y, 5820, 323);
    var y17 := MqMontySqr(y16);              MontyPowerMul(y16, y16, y, 6143, 6143);
    var y18 := MqMontyMul(y17, y0);          MontyPowerMul(y17, y0, y, 12286, 1);
    assert MqDiv(x, y) == MqMontyMul(y18, x);
    LeaveMonty(y18, x, y);
  }

  lemma LeaveMonty(v: nat, x: nat, y: nat)
    requires MontyPower(v, y, 12287) && x < Q
    ensures MqMontyMul(v, x) < Q && Cong(MqMontyMul(v, x), x * Pow(y, 12287), Q)
  {
    MontyMulMeaning(v, x);
    hide Cong, MqMontyMul, Pow;
    var w := Pow(y, 12287);
    CongScale(x, v, w * 0x1_0000, Q);
    MulAssoc(x, w, 0x1_0000);
    assert x * (w * 0x1_0000) == 0x1_0000 * (x * w);
    CongTrans(0x1_0000 * MqMontyMul(v, x), v * x, 0x1_0000 * (x * w), Q);
    CancelRadix16(MqMontyMul(v, x), x * w);
  }

  lemma QIsPrime()
    ensures Prime(Q)
  {
    hide NoDivisorFrom;
    UpperDivisors();
    TrialStep(12289, 55); TrialStep(12289, 51); TrialStep(12289, 47); TrialStep(12289, 43); TrialStep(12289, 39);
    TrialStep(12289, 35); TrialStep(12289, 31); TrialStep(12289, 27); TrialStep(12289, 23); TrialStep(12289, 19);
    TrialStep(12289, 15); TrialStep(12289, 11); TrialStep(12289, 7); TrialStep(12289, 3);
    TrialLast(12289);
    TrialDivision(12289);
  }

  lemma UpperDivisors()
    ensures NoDivisorFrom(12289, 59)
  {
    hide NoDivisorFrom;
    TrialStart(12289, 111);
    TrialStep(12289, 107); TrialStep(12289, 103); TrialStep(12289, 99); TrialStep(12289, 95); TrialStep(12289, 91);
    TrialStep(12289, 87); TrialStep(12289, 83); TrialStep(12289, 79); TrialStep(12289, 75); TrialStep(12289, 71);
    TrialStep(12289, 67); TrialStep(12289, 63); TrialStep(12289, 59);
  }

  /** Division is exact for every nonzero divisor, and division by zero yields zero. */
  lemma MqDivMeaning(x: nat, y: nat)
    requires x < Q && y < Q
    ensures MqDiv(x, y) < Q
    ensures y != 0 ==> Cong(MqDiv(x, y) * y, x, Q)
    ensures y == 0 ==> MqDiv(x, y) == 0
  {
    hide MqDiv;
    AdditionChain(x, y);
    if y == 0 {
      assert Pow(0, 12287) == 0 * Pow(0, 12286);
      CongCanonical(MqDiv(x, 0), 0, Q);
    } else {
      QIsPrime();
      FermatInverse(Q, y);
      hide *;
      var d, w := MqDiv(x, y), Pow(y, 12287);
      CongScale(y, d, x * w, Q);
      MulAssoc(x, y, w);
      assert y * (x * w) == x * (y * w);
      CongScale(x, y * w, 1, Q);
      CongTrans(y * d, x * (y * w), x, Q);
      assert y * d == d * y;
    }
  }

  /** An inverse modulo q for every nonzero residue. */
  lemma InverseExists(y: nat) returns (yi: int)
    requires 0 < y < Q
    ensures Cong(y * yi, 1, Q)
  {
    QIsPrime();
    FermatInverse(Q, y);
    yi := Pow(y, 12287);
  }
}
